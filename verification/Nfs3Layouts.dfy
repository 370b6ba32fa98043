/**
 The bytes of every NFS and MOUNT message, field by field in the order of the routines of
 src/nfsv3/nfs3_xdr.c and of RFC 1813, with discriminants and link words as numbers. With the
 round trip of Xdr these are also the bytes from which each message is read back.
 */
module Nfs3Layouts {
  import opened Base
  import opened Xdr
  import opened Nfs3

  // ---------------------------------------------------------------------------
  // How the encoder goes through a schema
  // ---------------------------------------------------------------------------

  /** One call after another. */
  ghost predicate Structs() {
    forall a, c, x, y {:trigger Encode(Then(a, c), VPair(x, y))} ::
      Encode(Then(a, c), VPair(x, y)) == Joined(Encode(a, x), Encode(c, y))
  }

  /** The discriminant, then the body of its case. */
  ghost predicate Switches() {
    && (forall disc, arms, tag, x {:trigger Encode(Union(disc, arms), VUnion(tag, x))} ::
          Encode(Union(disc, arms), VUnion(tag, x)) ==
          if Select(arms, tag).None? then None else Joined(PutTag(disc, tag), Encode(Select(arms, tag).value, x)))
    && (forall t, body, more, tag {:trigger Select(Case(t, body, more), tag)} ::
          Select(Case(t, body, more), tag) == if t == tag then Some(body) else Select(more, tag))
    && (forall body, tag {:trigger Select(Default(body), tag)} :: Select(Default(body), tag) == Some(body))
    && (forall tag {:trigger PutTag(OnBool, tag)} :: PutTag(OnBool, tag) == Some(PutWord(if tag == 0 then 0 else 1)))
    && (forall tag {:trigger PutTag(OnEnum, tag)} ::
          WellTagged(OnEnum, tag) ==> PutTag(OnEnum, tag) == Some(PutWord(tag % WORD)))
  }

  /** Nothing, and the numbers. */
  ghost predicate Numbers() {
    && Encode(Void, VVoid) == Some([]) && (forall b: seq<byte> {:trigger b + []} :: b + [] == b)
    && (forall i {:trigger Encode(Word, VInt(i))} :: FitsWord(i) ==> Encode(Word, VInt(i)) == Some(PutWord(i)))
    && (forall i {:trigger Encode(Hyper, VInt(i))} :: FitsHyper(i) ==> Encode(Hyper, VInt(i)) == Some(HyperBytes(i)))
    && (forall i {:trigger Encode(Enum, VInt(i))} ::
          WellTagged(OnEnum, i) ==> Encode(Enum, VInt(i)) == Some(PutWord(i % WORD)))
    && (forall i {:trigger Encode(Bool, VInt(i))} :: Encode(Bool, VInt(i)) == Some(PutWord(if i == 0 then 0 else 1)))
  }

  /** Counted bytes, strings and verifiers. */
  ghost predicate Strings() {
    && (forall max, b {:trigger Encode(Bytes(max), VBytes(b))} ::
          |b| <= max < WORD ==> Encode(Bytes(max), VBytes(b)) == Some(CountedBytes(b)))
    && (forall max, b {:trigger Encode(Str(max), VBytes(b))} ::
          |b| <= max < WORD && 0 !in b ==> Encode(Str(max), VBytes(b)) == Some(CountedBytes(b)))
    && (forall b {:trigger Encode(VERF3, VBytes(b))} :: |b| == 8 ==> Encode(VERF3, VBytes(b)) == Some(b))
  }

  /** Pairs of words, and attributes that may be missing. */
  ghost predicate Parts() {
    && (forall p {:trigger Pair(p)} :: FitsPair(p) ==> Encode(PAIR3, Pair(p)) == Some(PairBytes(p)))
    && (forall a: Option<Fattr3> {:trigger AttributesValue(a)} ::
          FitsAttributes(a) ==> Encode(POST_OP_ATTR, AttributesValue(a)) == Some(AttributesBytes(a)))
  }

  lemma StructsHold()
    ensures Structs()
  {
    forall a, c, x, y ensures Encode(Then(a, c), VPair(x, y)) == Joined(Encode(a, x), Encode(c, y)) {
      EncodeThen(a, c, x, y);
    }
  }

  lemma SwitchesHold()
    ensures Switches()
  {
    forall disc, arms, tag, x
      ensures Encode(Union(disc, arms), VUnion(tag, x)) ==
              if Select(arms, tag).None? then None else Joined(PutTag(disc, tag), Encode(Select(arms, tag).value, x))
    {
      EncodeUnion(disc, arms, tag, x);
    }
  }

  lemma NumbersHold()
    ensures Numbers()
  {
    hide PutWord;
    forall b: seq<byte> ensures b + [] == b {}
    forall i {:trigger Encode(Word, VInt(i))} | FitsWord(i) ensures Encode(Word, VInt(i)) == Some(PutWord(i)) {
      EncodeNumber(i);
    }
    forall i {:trigger Encode(Hyper, VInt(i))} | FitsHyper(i) ensures Encode(Hyper, VInt(i)) == Some(HyperBytes(i)) {
      EncodeIntegers(i);
    }
  }

  lemma StringsHold()
    ensures Strings()
  {
    hide Encode, CountedBytes;
    forall max, b | |b| <= max < WORD
      ensures Encode(Bytes(max), VBytes(b)) == Some(CountedBytes(b))
      ensures 0 !in b ==> Encode(Str(max), VBytes(b)) == Some(CountedBytes(b))
    {
      EncodeCounted(max, b);
    }
    forall b | |b| == 8 ensures Encode(VERF3, VBytes(b)) == Some(b) {
      EncodeVerifier(b);
    }
  }

  lemma EncodeVerifier(b: seq<byte>)
    requires |b| == 8
    ensures Encode(VERF3, VBytes(b)) == Some(b)
  {
    assert b + Zeros(Pad(8)) == b;
  }

  lemma PartsHold()
    ensures Parts()
  {
    forall p {:trigger Pair(p)} | FitsPair(p) ensures Encode(PAIR3, Pair(p)) == Some(PairBytes(p)) { EncodePair(p); }
    forall a: Option<Fattr3> {:trigger AttributesValue(a)} | FitsAttributes(a)
      ensures Encode(POST_OP_ATTR, AttributesValue(a)) == Some(AttributesBytes(a))
    {
      AttributesWritten(a);
    }
  }

  lemma Rules()
    ensures Structs() && Switches() && Numbers() && Strings() && Parts()
  {
    hide *;
    StructsHold();
    SwitchesHold();
    NumbersHold();
    StringsHold();
    PartsHold();
  }

  // ---------------------------------------------------------------------------
  // Parts
  // ---------------------------------------------------------------------------

  predicate Handle(b: seq<byte>) {
    |b| <= 64
  }

  predicate Name(b: seq<byte>) {
    |b| <= ANY_STRING && 0 !in b
  }

  predicate FitsAttributes(a: Option<Fattr3>) {
    a.Some? ==> FitsFattr3(a.value)
  }

  /** post_op_fh3: a word 1 and the handle, or a word 0. */
  function HandleValue(h: Option<seq<byte>>): Value {
    if h.None? then VUnion(0, VVoid) else VUnion(1, VBytes(h.value))
  }

  function HandleBytes(h: Option<seq<byte>>): seq<byte>
    requires h.Some? ==> Handle(h.value)
  {
    if h.None? then PutWord(0) else PutWord(1) + CountedBytes(h.value)
  }

  lemma HandleLayout(h: Option<seq<byte>>)
    requires h.Some? ==> Handle(h.value)
    ensures Encode(POST_OP_FH3, HandleValue(h)) == Some(HandleBytes(h))
  {
    hide Encode, Select, PutTag, PutWord, HyperBytes, CountedBytes, PairBytes, Fattr3Bytes, AttributesBytes, AttributesValue, FitsFattr3;
    Rules();
  }

  datatype WccAttr = WccAttr(size: int, mtime: (int, int), ctime: (int, int))
  datatype Wcc = Wcc(before: Option<WccAttr>, after: Option<Fattr3>)

  predicate FitsWcc(w: Wcc) {
    && (w.before.Some? ==> FitsHyper(w.before.value.size) && FitsPair(w.before.value.mtime) && FitsPair(w.before.value.ctime))
    && FitsAttributes(w.after)
  }

  function BeforeValue(b: Option<WccAttr>): Value {
    if b.None? then VUnion(0, VVoid)
    else VUnion(1, VPair(VInt(b.value.size), VPair(Pair(b.value.mtime), Pair(b.value.ctime))))
  }

  function WccValue(w: Wcc): Value {
    VPair(BeforeValue(w.before), AttributesValue(w.after))
  }

  /** wcc_data: size, modification and change time before, if known, then attributes after, if known. */
  function WccBytes(w: Wcc): seq<byte>
    requires FitsWcc(w)
  {
    (if w.before.None? then PutWord(0)
     else PutWord(1) + (HyperBytes(w.before.value.size) + (PairBytes(w.before.value.mtime) + PairBytes(w.before.value.ctime)))) +
    AttributesBytes(w.after)
  }

  lemma WccLayout(w: Wcc)
    requires FitsWcc(w)
    ensures Encode(WCC_DATA, WccValue(w)) == Some(WccBytes(w))
  {
    hide Encode, Select, PutTag, PutWord, HyperBytes, CountedBytes, PairBytes, Fattr3Bytes, AttributesBytes, AttributesValue, FitsFattr3;
    Rules();
  }

  datatype SetTime = DontChange | ServerTime | ClientTime(time: (int, int))
  datatype Sattr3 = Sattr3(mode: Option<int>, uid: Option<int>, gid: Option<int>, size: Option<int>, atime: SetTime, mtime: SetTime)

  predicate FitsSattr(a: Sattr3) {
    && (a.mode.Some? ==> FitsWord(a.mode.value)) && (a.uid.Some? ==> FitsWord(a.uid.value))
    && (a.gid.Some? ==> FitsWord(a.gid.value)) && (a.size.Some? ==> FitsHyper(a.size.value))
    && (a.atime.ClientTime? ==> FitsPair(a.atime.time)) && (a.mtime.ClientTime? ==> FitsPair(a.mtime.time))
  }

  function SetValue(i: Option<int>): Value {
    if i.None? then VUnion(0, VVoid) else VUnion(1, VInt(i.value))
  }

  function TimeValue(t: SetTime): Value {
    match t
    case DontChange => VUnion(0, VVoid)
    case ServerTime => VUnion(1, VVoid)
    case ClientTime(p) => VUnion(2, Pair(p))
  }

  function SattrValue(a: Sattr3): Value {
    VPair(SetValue(a.mode), VPair(SetValue(a.uid), VPair(SetValue(a.gid), VPair(SetValue(a.size),
      VPair(TimeValue(a.atime), TimeValue(a.mtime))))))
  }

  function SetBytes(i: Option<int>): seq<byte>
    requires i.Some? ==> FitsWord(i.value)
  {
    if i.None? then PutWord(0) else PutWord(1) + PutWord(i.value)
  }

  function TimeBytes(t: SetTime): seq<byte>
    requires t.ClientTime? ==> FitsPair(t.time)
  {
    match t
    case DontChange => PutWord(0)
    case ServerTime => PutWord(1)
    case ClientTime(p) => PutWord(2) + PairBytes(p)
  }

  /** sattr3: mode, owner, group, size, access and modification time, each after its flag. */
  function SattrBytes(a: Sattr3): seq<byte>
    requires FitsSattr(a)
  {
    SetBytes(a.mode) + (SetBytes(a.uid) + (SetBytes(a.gid) + (
    (if a.size.None? then PutWord(0) else PutWord(1) + HyperBytes(a.size.value)) + (
    TimeBytes(a.atime) + TimeBytes(a.mtime)))))
  }

  lemma SetLayout(i: Option<int>)
    ensures (i.Some? ==> FitsWord(i.value)) ==> Encode(SET_WORD, SetValue(i)) == Some(SetBytes(i))
    ensures (i.Some? ==> FitsHyper(i.value)) ==>
              Encode(SET_SIZE3, SetValue(i)) == Some(if i.None? then PutWord(0) else PutWord(1) + HyperBytes(i.value))
  {
    hide Encode, Select, PutTag, PutWord, HyperBytes, CountedBytes, PairBytes, Fattr3Bytes, AttributesBytes, AttributesValue, FitsFattr3;
    Rules();
  }

  lemma TimeLayout(t: SetTime)
    requires t.ClientTime? ==> FitsPair(t.time)
    ensures Encode(SET_TIME, TimeValue(t)) == Some(TimeBytes(t))
  {
    hide Encode, Select, PutTag, PutWord, HyperBytes, CountedBytes, PairBytes, Fattr3Bytes, AttributesBytes, AttributesValue, FitsFattr3;
    Rules();
  }

  lemma SattrLayout(a: Sattr3)
    requires FitsSattr(a)
    ensures Encode(SATTR3, SattrValue(a)) == Some(SattrBytes(a))
  {
    hide SetBytes, TimeBytes, SetValue, TimeValue;
    hide Encode, Select, PutTag, PutWord, HyperBytes, CountedBytes, PairBytes, Fattr3Bytes, AttributesBytes, AttributesValue, FitsFattr3;
    Rules();
    SetLayout(a.mode);
    SetLayout(a.uid);
    SetLayout(a.gid);
    SetLayout(a.size);
    TimeLayout(a.atime);
    TimeLayout(a.mtime);
  }

  // ---------------------------------------------------------------------------
  // Arguments
  // ---------------------------------------------------------------------------

  /** nfs_fh3 and diropargs3: a handle, and a handle with a name. */
  function DirBytes(dir: seq<byte>, name: seq<byte>): seq<byte>
    requires Handle(dir) && Name(name)
  {
    CountedBytes(dir) + CountedBytes(name)
  }

  function DirValue(dir: seq<byte>, name: seq<byte>): Value {
    VPair(VBytes(dir), VBytes(name))
  }

  lemma DiropargsLayout(dir: seq<byte>, name: seq<byte>)
    requires Handle(dir) && Name(name)
    ensures Encode(DIROPARGS3, DirValue(dir, name)) == Some(DirBytes(dir, name))
  {
    hide Encode, Select, PutTag, PutWord, HyperBytes, CountedBytes, PairBytes, Fattr3Bytes, AttributesBytes, AttributesValue, FitsFattr3;
    Rules();
  }

  /** READ (and COMMIT): handle, offset, count. */
  lemma ReadArgsLayout(file: seq<byte>, offset: int, count: int)
    requires Handle(file) && FitsHyper(offset) && FitsWord(count)
    ensures var v := VPair(VBytes(file), VPair(VInt(offset), VInt(count)));
            var b := CountedBytes(file) + (HyperBytes(offset) + PutWord(count));
            Encode(READ3ARGS, v) == Some(b) && Encode(COMMIT3ARGS, v) == Some(b)
  {
    hide Encode, Select, PutTag, PutWord, HyperBytes, CountedBytes, PairBytes, Fattr3Bytes, AttributesBytes, AttributesValue, FitsFattr3;
    Rules();
  }

  /** SETATTR: handle, new attributes, and the guarding change time after its flag. */
  lemma SetattrArgsLayout(file: seq<byte>, a: Sattr3, guard: Option<(int, int)>)
    requires Handle(file) && FitsSattr(a) && (guard.Some? ==> FitsPair(guard.value))
    ensures Encode(SETATTR3ARGS,
              VPair(VBytes(file), VPair(SattrValue(a), if guard.None? then VUnion(0, VVoid) else VUnion(1, Pair(guard.value))))) ==
            Some(CountedBytes(file) + (SattrBytes(a) + (if guard.None? then PutWord(0) else PutWord(1) + PairBytes(guard.value))))
  {
    hide SattrValue, SattrBytes;
    hide Encode, Select, PutTag, PutWord, HyperBytes, CountedBytes, PairBytes, Fattr3Bytes, AttributesBytes, AttributesValue, FitsFattr3;
    Rules();
    SattrLayout(a);
  }

  datatype How = Unchecked(a: Sattr3) | Guarded(a: Sattr3) | Exclusive(verf: seq<byte>)

  /** CREATE: directory, name, then mode 0 or 1 with attributes, or mode 2 with the 8-byte verifier. */
  lemma CreateArgsLayout(dir: seq<byte>, name: seq<byte>, how: How)
    requires Handle(dir) && Name(name) && (if how.Exclusive? then |how.verf| == 8 else FitsSattr(how.a))
    ensures Encode(CREATE3ARGS, VPair(DirValue(dir, name),
              match how
              case Unchecked(a) => VUnion(0, SattrValue(a))
              case Guarded(a) => VUnion(1, SattrValue(a))
              case Exclusive(verf) => VUnion(2, VBytes(verf)))) ==
            Some(DirBytes(dir, name) + (
              match how
              case Unchecked(a) => PutWord(0) + SattrBytes(a)
              case Guarded(a) => PutWord(1) + SattrBytes(a)
              case Exclusive(verf) => PutWord(2) + verf))
  {
    hide SattrValue, SattrBytes, DirValue, DirBytes;
    hide Encode, Select, PutTag, PutWord, HyperBytes, CountedBytes, PairBytes, Fattr3Bytes, AttributesBytes, AttributesValue, FitsFattr3;
    Rules();
    DiropargsLayout(dir, name);
    if !how.Exclusive? { SattrLayout(how.a); }
  }

  /** MKDIR and SYMLINK: directory, name, attributes, and the path of the link. */
  lemma MkdirSymlinkArgsLayout(dir: seq<byte>, name: seq<byte>, a: Sattr3, path: seq<byte>)
    requires Handle(dir) && Name(name) && FitsSattr(a) && Name(path)
    ensures Encode(MKDIR3ARGS, VPair(DirValue(dir, name), SattrValue(a))) == Some(DirBytes(dir, name) + SattrBytes(a))
    ensures Encode(SYMLINK3ARGS, VPair(DirValue(dir, name), VPair(SattrValue(a), VBytes(path)))) ==
            Some(DirBytes(dir, name) + (SattrBytes(a) + CountedBytes(path)))
  {
    hide SattrValue, SattrBytes, DirValue, DirBytes;
    hide Encode, Select, PutTag, PutWord, HyperBytes, CountedBytes, PairBytes, Fattr3Bytes, AttributesBytes, AttributesValue, FitsFattr3;
    Rules();
    DiropargsLayout(dir, name);
    SattrLayout(a);
  }

  /** MKNOD: types 3 and 4 carry attributes and a device, types 6 and 7 attributes, others nothing. */
  lemma MknodArgsLayout(dir: seq<byte>, name: seq<byte>, ftype: int, a: Sattr3, device: (int, int))
    requires Handle(dir) && Name(name) && WellTagged(OnEnum, ftype) && FitsSattr(a) && FitsPair(device)
    ensures Encode(MKNOD3ARGS, VPair(DirValue(dir, name), VUnion(ftype,
              if ftype == 3 || ftype == 4 then VPair(SattrValue(a), Pair(device))
              else if ftype == 6 || ftype == 7 then SattrValue(a)
              else VVoid))) ==
            Some(DirBytes(dir, name) + (PutWord(ftype % WORD) + (
              if ftype == 3 || ftype == 4 then SattrBytes(a) + PairBytes(device)
              else if ftype == 6 || ftype == 7 then SattrBytes(a)
              else [])))
  {
    hide SattrValue, SattrBytes, DirValue, DirBytes;
    hide Encode, Select, PutTag, PutWord, HyperBytes, CountedBytes, PairBytes, Fattr3Bytes, AttributesBytes, AttributesValue, FitsFattr3;
    Rules();
    DiropargsLayout(dir, name);
    SattrLayout(a);
  }

  /** RENAME and LINK: from and to; a handle and where to link it. */
  lemma RenameLinkArgsLayout(dir: seq<byte>, name: seq<byte>, toDir: seq<byte>, toName: seq<byte>, file: seq<byte>)
    requires Handle(dir) && Name(name) && Handle(toDir) && Name(toName) && Handle(file)
    ensures Encode(RENAME3ARGS, VPair(DirValue(dir, name), DirValue(toDir, toName))) ==
            Some(DirBytes(dir, name) + DirBytes(toDir, toName))
    ensures Encode(LINK3ARGS, VPair(VBytes(file), DirValue(dir, name))) == Some(CountedBytes(file) + DirBytes(dir, name))
  {
    hide DirValue, DirBytes;
    hide Encode, Select, PutTag, PutWord, HyperBytes, CountedBytes, PairBytes, Fattr3Bytes, AttributesBytes, AttributesValue, FitsFattr3;
    Rules();
    DiropargsLayout(dir, name);
    DiropargsLayout(toDir, toName);
  }

  /** READDIR and READDIRPLUS: directory, cookie, verifier, and one or two byte counts. */
  lemma ReaddirArgsLayout(dir: seq<byte>, cookie: int, verf: seq<byte>, count: int, maxcount: int)
    requires Handle(dir) && FitsHyper(cookie) && |verf| == 8 && FitsWord(count) && FitsWord(maxcount)
    ensures Encode(READDIR3ARGS, VPair(VBytes(dir), VPair(VInt(cookie), VPair(VBytes(verf), VInt(count))))) ==
            Some(CountedBytes(dir) + (HyperBytes(cookie) + (verf + PutWord(count))))
    ensures Encode(READDIRPLUS3ARGS,
              VPair(VBytes(dir), VPair(VInt(cookie), VPair(VBytes(verf), VPair(VInt(count), VInt(maxcount)))))) ==
            Some(CountedBytes(dir) + (HyperBytes(cookie) + (verf + (PutWord(count) + PutWord(maxcount)))))
  {
    hide Encode, Select, PutTag, PutWord, HyperBytes, CountedBytes, PairBytes, Fattr3Bytes, AttributesBytes, AttributesValue, FitsFattr3;
    Rules();
  }

  // ---------------------------------------------------------------------------
  // Results
  // ---------------------------------------------------------------------------

  /** A reply: the status, then the body for status 0 or the one for any other. */
  lemma ReplyLayout(ok: Schema, fail: Schema, status: int, body: Value)
    requires WellTagged(OnEnum, status)
    ensures Encode(Result(ok, fail), VUnion(status, body)) ==
            Joined(Some(PutWord(status % WORD)), Encode(if status == 0 then ok else fail, body))
  {
    hide Encode, Select, PutTag, PutWord, HyperBytes, CountedBytes, PairBytes, Fattr3Bytes, AttributesBytes, AttributesValue, FitsFattr3;
    Rules();
  }

  /** A status that reports an error. */
  predicate Failed(status: int) {
    WellTagged(OnEnum, status) && status != 0
  }

  /** GETATTR: attributes; nothing on an error. */
  lemma GetattrReplyLayout(a: Fattr3, status: int)
    requires FitsFattr3(a) && Failed(status)
    ensures Encode(GETATTR3RES, VUnion(0, Fattr3Value(a))) == Some(PutWord(0) + Fattr3Bytes(a))
    ensures Encode(GETATTR3RES, VUnion(status, VVoid)) == Some(PutWord(status % WORD))
  {
    hide Fattr3Value;
    hide Encode, Select, PutTag, PutWord, HyperBytes, CountedBytes, PairBytes, Fattr3Bytes, AttributesBytes, AttributesValue, FitsFattr3;
    Rules();
    Fattr3Written(a);
  }

  /** LOOKUP: handle, attributes of the object, attributes of the directory; on an error the latter. */
  lemma LookupReplyLayout(handle: seq<byte>, obj: Option<Fattr3>, dir: Option<Fattr3>, status: int)
    requires Handle(handle) && FitsAttributes(obj) && FitsAttributes(dir) && Failed(status)
    ensures Encode(LOOKUP3RES, VUnion(0, VPair(VBytes(handle), VPair(AttributesValue(obj), AttributesValue(dir))))) ==
            Some(PutWord(0) + (CountedBytes(handle) + (AttributesBytes(obj) + AttributesBytes(dir))))
    ensures Encode(LOOKUP3RES, VUnion(status, AttributesValue(dir))) == Some(PutWord(status % WORD) + AttributesBytes(dir))
  {
    hide Encode, Select, PutTag, PutWord, HyperBytes, CountedBytes, PairBytes, Fattr3Bytes, AttributesBytes, AttributesValue, FitsFattr3;
    Rules();
  }

  /** ACCESS and READLINK: attributes, then the access bits or the path; on an error the attributes. */
  lemma AccessReadlinkReplyLayout(a: Option<Fattr3>, access: int, path: seq<byte>, status: int)
    requires FitsAttributes(a) && FitsWord(access) && Name(path) && Failed(status)
    ensures Encode(ACCESS3RES, VUnion(0, VPair(AttributesValue(a), VInt(access)))) ==
            Some(PutWord(0) + (AttributesBytes(a) + PutWord(access)))
    ensures Encode(READLINK3RES, VUnion(0, VPair(AttributesValue(a), VBytes(path)))) ==
            Some(PutWord(0) + (AttributesBytes(a) + CountedBytes(path)))
    ensures Encode(ACCESS3RES, VUnion(status, AttributesValue(a))) == Some(PutWord(status % WORD) + AttributesBytes(a))
    ensures Encode(READLINK3RES, VUnion(status, AttributesValue(a))) == Some(PutWord(status % WORD) + AttributesBytes(a))
  {
    hide Encode, Select, PutTag, PutWord, HyperBytes, CountedBytes, PairBytes, Fattr3Bytes, AttributesBytes, AttributesValue, FitsFattr3;
    Rules();
  }

  /** READ: attributes, count, end-of-file flag, data; on an error the attributes. */
  lemma ReadReplyLayout(a: Option<Fattr3>, count: int, eof: bool, data: seq<byte>, status: int)
    requires FitsAttributes(a) && FitsWord(count) && |data| < WORD && Failed(status)
    ensures Encode(Read3res(true),
              VUnion(0, VPair(AttributesValue(a), VPair(VInt(count), VPair(VInt(if eof then 1 else 0), VBytes(data)))))) ==
            Some(PutWord(0) + (AttributesBytes(a) + (PutWord(count) + (PutWord(if eof then 1 else 0) + CountedBytes(data)))))
    ensures Encode(Read3res(false), VUnion(0, VPair(AttributesValue(a), VPair(VInt(count), VInt(if eof then 1 else 0))))) ==
            Some(PutWord(0) + (AttributesBytes(a) + (PutWord(count) + PutWord(if eof then 1 else 0))))
    ensures forall d: bool ::
              Encode(Read3res(d), VUnion(status, AttributesValue(a))) == Some(PutWord(status % WORD) + AttributesBytes(a))
  {
    hide Encode, Select, PutTag, PutWord, HyperBytes, CountedBytes, PairBytes, Fattr3Bytes, AttributesBytes, AttributesValue, FitsFattr3;
    Rules();
  }

  /** WRITE and COMMIT: attributes before and after, count, stability, verifier. */
  lemma WriteCommitReplyLayout(w: Wcc, count: int, stable: int, verf: seq<byte>, status: int)
    requires FitsWcc(w) && FitsWord(count) && WellTagged(OnEnum, stable) && |verf| == 8 && Failed(status)
    ensures Encode(WRITE3RES, VUnion(0, VPair(WccValue(w), VPair(VInt(count), VPair(VInt(stable), VBytes(verf)))))) ==
            Some(PutWord(0) + (WccBytes(w) + (PutWord(count) + (PutWord(stable % WORD) + verf))))
    ensures Encode(COMMIT3RES, VUnion(0, VPair(WccValue(w), VBytes(verf)))) == Some(PutWord(0) + (WccBytes(w) + verf))
    ensures Encode(WRITE3RES, VUnion(status, WccValue(w))) == Some(PutWord(status % WORD) + WccBytes(w))
    ensures Encode(COMMIT3RES, VUnion(status, WccValue(w))) == Some(PutWord(status % WORD) + WccBytes(w))
  {
    hide WccValue, WccBytes, FitsWcc;
    hide Encode, Select, PutTag, PutWord, HyperBytes, CountedBytes, PairBytes, Fattr3Bytes, AttributesBytes, AttributesValue, FitsFattr3;
    Rules();
    WccLayout(w);
  }

  /** CREATE, MKDIR, SYMLINK, MKNOD: handle, attributes, then the directory before and after. */
  lemma NewObjectReplyLayout(handle: Option<seq<byte>>, a: Option<Fattr3>, w: Wcc, status: int)
    requires (handle.Some? ==> Handle(handle.value)) && FitsAttributes(a) && FitsWcc(w) && Failed(status)
    ensures Encode(NEWOBJ3RES, VUnion(0, VPair(HandleValue(handle), VPair(AttributesValue(a), WccValue(w))))) ==
            Some(PutWord(0) + (HandleBytes(handle) + (AttributesBytes(a) + WccBytes(w))))
    ensures Encode(NEWOBJ3RES, VUnion(status, WccValue(w))) == Some(PutWord(status % WORD) + WccBytes(w))
  {
    hide WccValue, WccBytes, FitsWcc, HandleValue, HandleBytes;
    hide Encode, Select, PutTag, PutWord, HyperBytes, CountedBytes, PairBytes, Fattr3Bytes, AttributesBytes, AttributesValue, FitsFattr3;
    Rules();
    WccLayout(w);
    HandleLayout(handle);
  }

  /** SETATTR, REMOVE, RMDIR, RENAME and LINK give the same fields whatever the status. */
  lemma ChangeReplyLayout(a: Option<Fattr3>, w: Wcc, to: Wcc, status: int)
    requires FitsAttributes(a) && FitsWcc(w) && FitsWcc(to) && WellTagged(OnEnum, status)
    ensures Encode(SETATTR3RES, VUnion(status, WccValue(w))) == Some(PutWord(status % WORD) + WccBytes(w))
    ensures Encode(REMOVE3RES, VUnion(status, WccValue(w))) == Some(PutWord(status % WORD) + WccBytes(w))
    ensures Encode(RENAME3RES, VUnion(status, VPair(WccValue(w), WccValue(to)))) ==
            Some(PutWord(status % WORD) + (WccBytes(w) + WccBytes(to)))
    ensures Encode(LINK3RES, VUnion(status, VPair(AttributesValue(a), WccValue(w)))) ==
            Some(PutWord(status % WORD) + (AttributesBytes(a) + WccBytes(w)))
  {
    hide WccValue, WccBytes, FitsWcc;
    hide Encode, Select, PutTag, PutWord, HyperBytes, CountedBytes, PairBytes, Fattr3Bytes, AttributesBytes, AttributesValue, FitsFattr3;
    Rules();
    WccLayout(w);
    WccLayout(to);
  }

  datatype Fsstat = Fsstat(tbytes: int, fbytes: int, abytes: int, tfiles: int, ffiles: int, afiles: int, invarsec: int)

  predicate FitsFsstat(f: Fsstat) {
    && FitsHyper(f.tbytes) && FitsHyper(f.fbytes) && FitsHyper(f.abytes)
    && FitsHyper(f.tfiles) && FitsHyper(f.ffiles) && FitsHyper(f.afiles) && FitsWord(f.invarsec)
  }

  /** FSSTAT: attributes, total, free and available bytes and files, and the seconds they stay valid. */
  lemma FsstatReplyLayout(a: Option<Fattr3>, f: Fsstat, status: int)
    requires FitsAttributes(a) && FitsFsstat(f) && Failed(status)
    ensures Encode(FSSTAT3RES, VUnion(0, VPair(AttributesValue(a), VPair(VInt(f.tbytes), VPair(VInt(f.fbytes), VPair(VInt(f.abytes),
              VPair(VInt(f.tfiles), VPair(VInt(f.ffiles), VPair(VInt(f.afiles), VInt(f.invarsec)))))))))) ==
            Some(PutWord(0) + (AttributesBytes(a) + (HyperBytes(f.tbytes) + (HyperBytes(f.fbytes) + (HyperBytes(f.abytes) + (
                 HyperBytes(f.tfiles) + (HyperBytes(f.ffiles) + (HyperBytes(f.afiles) + PutWord(f.invarsec)))))))))
    ensures Encode(FSSTAT3RES, VUnion(status, AttributesValue(a))) == Some(PutWord(status % WORD) + AttributesBytes(a))
  {
    hide Encode, Select, PutTag, PutWord, HyperBytes, CountedBytes, PairBytes, Fattr3Bytes, AttributesBytes, AttributesValue, FitsFattr3;
    Rules();
  }

  datatype Fsinfo = Fsinfo(rtmax: int, rtpref: int, rtmult: int, wtmax: int, wtpref: int, wtmult: int, dtpref: int,
                           maxfilesize: int, timeDelta: (int, int), properties: int)

  predicate FitsFsinfo(f: Fsinfo) {
    && FitsWord(f.rtmax) && FitsWord(f.rtpref) && FitsWord(f.rtmult) && FitsWord(f.wtmax) && FitsWord(f.wtpref)
    && FitsWord(f.wtmult) && FitsWord(f.dtpref) && FitsHyper(f.maxfilesize) && FitsPair(f.timeDelta) && FitsWord(f.properties)
  }

  /** FSINFO: attributes, read and write sizes, directory size, largest file, clock step, properties. */
  lemma FsinfoReplyLayout(a: Option<Fattr3>, f: Fsinfo, status: int)
    requires FitsAttributes(a) && FitsFsinfo(f) && Failed(status)
    ensures Encode(FSINFO3RES, VUnion(0, VPair(AttributesValue(a), VPair(VInt(f.rtmax), VPair(VInt(f.rtpref), VPair(VInt(f.rtmult),
              VPair(VInt(f.wtmax), VPair(VInt(f.wtpref), VPair(VInt(f.wtmult), VPair(VInt(f.dtpref), VPair(VInt(f.maxfilesize),
              VPair(Pair(f.timeDelta), VInt(f.properties))))))))))))) ==
            Some(PutWord(0) + (AttributesBytes(a) + (PutWord(f.rtmax) + (PutWord(f.rtpref) + (PutWord(f.rtmult) + (
                 PutWord(f.wtmax) + (PutWord(f.wtpref) + (PutWord(f.wtmult) + (PutWord(f.dtpref) + (HyperBytes(f.maxfilesize) + (
                 PairBytes(f.timeDelta) + PutWord(f.properties))))))))))))
    ensures Encode(FSINFO3RES, VUnion(status, AttributesValue(a))) == Some(PutWord(status % WORD) + AttributesBytes(a))
  {
    hide Encode, Select, PutTag, PutWord, HyperBytes, CountedBytes, PairBytes, Fattr3Bytes, AttributesBytes, AttributesValue, FitsFattr3;
    Rules();
  }

  /** PATHCONF: attributes, most links, longest name, and four flags as words 0 or 1. */
  lemma PathconfLayout(a: Option<Fattr3>, linkmax: int, nameMax: int, f: (bool, bool, bool, bool), raw: bool)
    requires FitsAttributes(a) && FitsWord(linkmax) && FitsWord(nameMax)
    ensures var n := (x: bool) => if x then 1 else 0;
            Encode(Pathconf3resok(raw), VPair(AttributesValue(a), VPair(VInt(linkmax), VPair(VInt(nameMax),
              VPair(VInt(n(f.0)), VPair(VInt(n(f.1)), VPair(VInt(n(f.2)), VInt(n(f.3))))))))) ==
            Some(AttributesBytes(a) + (PutWord(linkmax) + (PutWord(nameMax) + (
                 PutWord(n(f.0)) + (PutWord(n(f.1)) + (PutWord(n(f.2)) + PutWord(n(f.3))))))))
  {
    hide Encode, Select, PutTag, PutWord, HyperBytes, CountedBytes, PairBytes, Fattr3Bytes, AttributesBytes, AttributesValue, FitsFattr3;
    Rules();
  }

  // ---------------------------------------------------------------------------
  // Lists: each entry after a link word 1, a link word 0 at the end
  // ---------------------------------------------------------------------------

  lemma LinkWords(e: Schema, x: Value, tail: Value)
    ensures EncodeList(e, VNil) == Some(PutWord(0))
    ensures EncodeList(e, VCons(x, tail)) == Joined(Joined(Some(PutWord(1)), Encode(e, x)), EncodeList(e, tail))
  {
    hide Encode, EncodeList;
    NoChain(e, VNil);
    ConsChain(e, x, tail);
  }

  lemma ListLayout(e: Schema, v: Value)
    ensures Encode(List(e), v) == EncodeList(e, v)
  {
    ListIsChain(e, v, []);
  }

  datatype DirEntry = DirEntry(fileid: int, name: seq<byte>, cookie: int)

  predicate FitsDirEntry(e: DirEntry) {
    FitsHyper(e.fileid) && Name(e.name) && FitsHyper(e.cookie)
  }

  function DirEntriesValue(entries: seq<DirEntry>): Value {
    if entries == [] then VNil
    else
      var e := entries[0];
      VCons(VPair(VInt(e.fileid), VPair(VBytes(e.name), VInt(e.cookie))), DirEntriesValue(entries[1..]))
  }

  function DirEntriesBytes(entries: seq<DirEntry>): seq<byte>
    requires forall e :: e in entries ==> FitsDirEntry(e)
  {
    if entries == [] then PutWord(0)
    else
      var e := entries[0];
      assert FitsDirEntry(e);
      PutWord(1) + (HyperBytes(e.fileid) + (CountedBytes(e.name) + HyperBytes(e.cookie))) + DirEntriesBytes(entries[1..])
  }

  lemma {:induction false} DirEntriesLayout(entries: seq<DirEntry>)
    requires forall e :: e in entries ==> FitsDirEntry(e)
    ensures EncodeList(ENTRY3, DirEntriesValue(entries)) == Some(DirEntriesBytes(entries))
  {
    hide EncodeList;
    hide Encode, Select, PutTag, PutWord, HyperBytes, CountedBytes, PairBytes, Fattr3Bytes, AttributesBytes, AttributesValue, FitsFattr3;
    Rules();
    if entries == [] {
      LinkWords(ENTRY3, VNil, VNil);
    } else {
      var e := entries[0];
      assert FitsDirEntry(e);
      DirEntriesLayout(entries[1..]);
      LinkWords(ENTRY3, VPair(VInt(e.fileid), VPair(VBytes(e.name), VInt(e.cookie))), DirEntriesValue(entries[1..]));
    }
  }

  /** READDIR: attributes, verifier, the entries, and the flag that ends the listing. */
  lemma ReaddirReplyLayout(a: Option<Fattr3>, verf: seq<byte>, entries: seq<DirEntry>, eof: bool, status: int)
    requires FitsAttributes(a) && |verf| == 8 && (forall e :: e in entries ==> FitsDirEntry(e)) && Failed(status)
    ensures Encode(READDIR3RES, VUnion(0, VPair(AttributesValue(a), VPair(VBytes(verf),
              VPair(DirEntriesValue(entries), VInt(if eof then 1 else 0)))))) ==
            Some(PutWord(0) + (AttributesBytes(a) + (verf + (DirEntriesBytes(entries) + PutWord(if eof then 1 else 0)))))
    ensures Encode(READDIR3RES, VUnion(status, AttributesValue(a))) == Some(PutWord(status % WORD) + AttributesBytes(a))
  {
    hide DirEntriesValue, DirEntriesBytes, EncodeList, FitsDirEntry;
    hide Encode, Select, PutTag, PutWord, HyperBytes, CountedBytes, PairBytes, Fattr3Bytes, AttributesBytes, AttributesValue, FitsFattr3;
    Rules();
    DirEntriesLayout(entries);
    ListLayout(ENTRY3, DirEntriesValue(entries));
  }

  function EntryBytes(e: Entry3): seq<byte>
    requires FitsEntry(e)
  {
    HyperBytes(e.fileid) + (CountedBytes(e.name) + (HyperBytes(e.cookie) + (AttributesBytes(e.attributes) +
      (if e.handle.None? then PutWord(0) else PutWord(1) + CountedBytes(e.handle.value)))))
  }

  function EntriesBytes(entries: seq<Entry3>): seq<byte>
    requires forall e :: e in entries ==> FitsEntry(e)
  {
    if entries == [] then PutWord(0)
    else
      assert FitsEntry(entries[0]);
      PutWord(1) + EntryBytes(entries[0]) + EntriesBytes(entries[1..])
  }

  lemma {:induction false} EntriesLayout(entries: seq<Entry3>)
    requires forall e :: e in entries ==> FitsEntry(e)
    ensures EncodeList(ENTRYPLUS3, EntriesValue(entries)) == Some(EntriesBytes(entries))
  {
    hide EncodeList, Encode, PutWord, HyperBytes, CountedBytes, AttributesBytes, FitsEntry, EntryValue;
    if entries == [] {
      LinkWords(ENTRYPLUS3, VNil, VNil);
    } else {
      EntryLayout(entries[0]);
      EntriesLayout(entries[1..]);
      LinkWords(ENTRYPLUS3, EntryValue(entries[0]), EntriesValue(entries[1..]));
    }
  }

  /** READDIRPLUS: the same with attributes and handle in each entry. */
  lemma ReaddirplusReplyLayout(a: Option<Fattr3>, verf: seq<byte>, entries: seq<Entry3>, eof: bool, status: int)
    requires FitsAttributes(a) && |verf| == 8 && (forall e :: e in entries ==> FitsEntry(e)) && Failed(status)
    ensures Encode(READDIRPLUS3RES, DirectoryReply(a, verf, entries, eof)) ==
            Some(PutWord(0) + (AttributesBytes(a) + (verf + (EntriesBytes(entries) + PutWord(if eof then 1 else 0)))))
    ensures Encode(READDIRPLUS3RES, VUnion(status, AttributesValue(a))) == Some(PutWord(status % WORD) + AttributesBytes(a))
  {
    hide EntriesValue, EntriesBytes, EncodeList, FitsEntry;
    hide Encode, Select, PutTag, PutWord, HyperBytes, CountedBytes, PairBytes, Fattr3Bytes, AttributesBytes, AttributesValue, FitsFattr3;
    Rules();
    EntriesLayout(entries);
    ListLayout(ENTRYPLUS3, EntriesValue(entries));
  }

  function GroupsBytes(groups: seq<seq<byte>>): seq<byte>
    requires forall g :: g in groups ==> FitsGroup(g)
  {
    if groups == [] then PutWord(0)
    else
      assert FitsGroup(groups[0]);
      PutWord(1) + CountedBytes(groups[0]) + GroupsBytes(groups[1..])
  }

  lemma {:induction false} GroupsLayout(groups: seq<seq<byte>>)
    requires forall g :: g in groups ==> FitsGroup(g)
    ensures EncodeList(NAME, GroupsValue(groups)) == Some(GroupsBytes(groups))
  {
    hide EncodeList;
    hide Encode, Select, PutTag, PutWord, HyperBytes, CountedBytes, PairBytes, Fattr3Bytes, AttributesBytes, AttributesValue, FitsFattr3;
    Rules();
    if groups == [] {
      LinkWords(NAME, VNil, VNil);
    } else {
      assert FitsGroup(groups[0]);
      GroupsLayout(groups[1..]);
      LinkWords(NAME, VBytes(groups[0]), GroupsValue(groups[1..]));
    }
  }

  function ExportsBytes(exports: seq<Export>): seq<byte>
    requires forall e :: e in exports ==> FitsExport(e)
  {
    if exports == [] then PutWord(0)
    else
      assert FitsExport(exports[0]);
      PutWord(1) + (CountedBytes(exports[0].dir) + GroupsBytes(exports[0].groups)) + ExportsBytes(exports[1..])
  }

  /** EXPORT: for each directory its path and, nested, the list of groups it is exported to. */
  lemma {:induction false} ExportsLayout(exports: seq<Export>)
    requires forall e :: e in exports ==> FitsExport(e)
    ensures Encode(EXPORTS, ExportsValue(exports)) == Some(ExportsBytes(exports))
  {
    hide EncodeList, GroupsValue, GroupsBytes;
    hide Encode, Select, PutTag, PutWord, HyperBytes, CountedBytes, PairBytes, Fattr3Bytes, AttributesBytes, AttributesValue, FitsFattr3;
    Rules();
    ListLayout(EXPORTS.elem, ExportsValue(exports));
    if exports == [] {
      LinkWords(EXPORTS.elem, VNil, VNil);
    } else {
      var e := exports[0];
      assert FitsExport(e);
      GroupsLayout(e.groups);
      ListLayout(NAME, GroupsValue(e.groups));
      ExportsLayout(exports[1..]);
      ListLayout(EXPORTS.elem, ExportsValue(exports[1..]));
      LinkWords(EXPORTS.elem, VPair(VBytes(e.dir), GroupsValue(e.groups)), ExportsValue(exports[1..]));
    }
  }

  predicate FitsMount(m: (seq<byte>, seq<byte>)) {
    |m.0| <= 255 && 0 !in m.0 && |m.1| <= 1024 && 0 !in m.1
  }

  function MountsValue(mounts: seq<(seq<byte>, seq<byte>)>): Value {
    if mounts == [] then VNil else VCons(VPair(VBytes(mounts[0].0), VBytes(mounts[0].1)), MountsValue(mounts[1..]))
  }

  function MountsBytes(mounts: seq<(seq<byte>, seq<byte>)>): seq<byte>
    requires forall m :: m in mounts ==> FitsMount(m)
  {
    if mounts == [] then PutWord(0)
    else
      assert FitsMount(mounts[0]);
      PutWord(1) + (CountedBytes(mounts[0].0) + CountedBytes(mounts[0].1)) + MountsBytes(mounts[1..])
  }

  /** DUMP: the host name and directory of each mount. */
  lemma {:induction false} MountsLayout(mounts: seq<(seq<byte>, seq<byte>)>)
    requires forall m :: m in mounts ==> FitsMount(m)
    ensures Encode(MOUNTLIST, MountsValue(mounts)) == Some(MountsBytes(mounts))
  {
    hide EncodeList;
    hide Encode, Select, PutTag, PutWord, HyperBytes, CountedBytes, PairBytes, Fattr3Bytes, AttributesBytes, AttributesValue, FitsFattr3;
    Rules();
    ListLayout(MOUNTLIST.elem, MountsValue(mounts));
    if mounts == [] {
      LinkWords(MOUNTLIST.elem, VNil, VNil);
    } else {
      assert FitsMount(mounts[0]);
      MountsLayout(mounts[1..]);
      ListLayout(MOUNTLIST.elem, MountsValue(mounts[1..]));
      LinkWords(MOUNTLIST.elem, VPair(VBytes(mounts[0].0), VBytes(mounts[0].1)), MountsValue(mounts[1..]));
    }
  }

  function FlavorsValue(flavors: seq<int>): Value {
    if flavors == [] then VNil else VCons(VInt(flavors[0]), FlavorsValue(flavors[1..]))
  }

  function FlavorsBytes(flavors: seq<int>): seq<byte> {
    if flavors == [] then [] else PutWord(flavors[0] % WORD) + FlavorsBytes(flavors[1..])
  }

  lemma {:induction false} FlavorsLayout(flavors: seq<int>)
    requires forall f :: f in flavors ==> WellTagged(OnEnum, f)
    ensures EncodeItems(Enum, FlavorsValue(flavors)) == Some(FlavorsBytes(flavors)) && Length(FlavorsValue(flavors)) == |flavors|
  {
    hide Encode, Select, PutTag, PutWord, HyperBytes, CountedBytes, PairBytes, Fattr3Bytes, AttributesBytes, AttributesValue, FitsFattr3;
    Rules();
    if flavors != [] {
      FlavorsLayout(flavors[1..]);
    }
  }

  /** MNT: on status 0 the handle and the number of flavours with each of them; otherwise nothing. */
  lemma MountReplyLayout(handle: seq<byte>, flavors: seq<int>, status: int)
    requires Handle(handle) && |flavors| <= ANY_INTS && (forall f :: f in flavors ==> WellTagged(OnEnum, f)) && Failed(status)
    ensures Encode(MOUNTRES3, VUnion(0, VPair(VBytes(handle), FlavorsValue(flavors)))) ==
            Some(PutWord(0) + (CountedBytes(handle) + (PutWord(|flavors|) + FlavorsBytes(flavors))))
    ensures Encode(MOUNTRES3, VUnion(status, VVoid)) == Some(PutWord(status % WORD))
  {
    hide FlavorsValue, FlavorsBytes, EncodeItems, Length;
    hide Encode, Select, PutTag, PutWord, HyperBytes, CountedBytes, PairBytes, Fattr3Bytes, AttributesBytes, AttributesValue, FitsFattr3;
    Rules();
    FlavorsLayout(flavors);
    EncodeArray(Enum, ANY_INTS, FlavorsValue(flavors));
  }
}
