/**
 The NFS version 3 and MOUNT version 3 routines of src/nfsv3/nfs3_xdr.c: each constant lists the
 calls of the routine of the same name, in order (RFC 1813, appendix I and sections 2 to 3).
 */
module Nfs3 {
  import opened Base
  import opened Xdr

  const FHSIZE := 64                   // NFS3_FHSIZE and FHSIZE3
  const VERFSIZE := 8                  // the cookie, create and write verifiers
  const MNTPATHLEN := 1024
  const MNTNAMLEN := 255
  const ANY_BYTES := 0xFFFF_FFFF       // ~0
  const ANY_STRING := 0xFFFF_FFFE      // ~0, less the NUL that must also be counted in 32 bits
  const ANY_INTS := 0x3FFF_FFFF        // ~0 elements of four bytes must be countable in 32 bits

  const NFS3_OK := 0
  const NF3BLK := 3
  const NF3CHR := 4
  const NF3SOCK := 6
  const NF3FIFO := 7
  const SET_TO_CLIENT_TIME := 2
  const UNCHECKED := 0
  const GUARDED := 1
  const EXCLUSIVE := 2

  // ---------------------------------------------------------------------------
  // Attributes and handles
  // ---------------------------------------------------------------------------

  const FILENAME3 := Str(ANY_STRING)
  const NFS_FH3 := Bytes(FHSIZE)
  const VERF3 := Opaque(VERFSIZE)
  const PAIR3 := Then(Word, Word)      // specdata3, nfstime3

  const FATTR3 :=
    Then(Enum, Then(Word, Then(Word, Then(Word, Then(Word, Then(Hyper, Then(Hyper, Then(PAIR3,
    Then(Hyper, Then(Hyper, Then(PAIR3, Then(PAIR3, PAIR3))))))))))))

  const WCC_ATTR := Then(Hyper, Then(PAIR3, PAIR3))

  /** A boolean switch with a TRUE and a FALSE case and no others. */
  function Optional(body: Schema): Schema {
    Union(OnBool, Case(1, body, Case(0, Void, NoDefault)))
  }

  /** A switch with one case; every other tag goes without a body. */
  function OnlyIf(disc: Disc, tag: int, body: Schema): Schema {
    Union(disc, Case(tag, body, Default(Void)))
  }

  const POST_OP_ATTR := Optional(FATTR3)
  const PRE_OP_ATTR := Optional(WCC_ATTR)
  const POST_OP_FH3 := Optional(NFS_FH3)
  const WCC_DATA := Then(PRE_OP_ATTR, POST_OP_ATTR)
  const SATTRGUARD3 := Optional(PAIR3)

  const SET_WORD := OnlyIf(OnBool, 1, Word)            // set_mode3, set_uid3, set_gid3
  const SET_SIZE3 := OnlyIf(OnBool, 1, Hyper)
  const SET_TIME := OnlyIf(OnEnum, SET_TO_CLIENT_TIME, PAIR3)   // set_atime, set_mtime
  const SATTR3 := Then(SET_WORD, Then(SET_WORD, Then(SET_WORD, Then(SET_SIZE3, Then(SET_TIME, SET_TIME)))))

  const DIROPARGS3 := Then(NFS_FH3, FILENAME3)

  // ---------------------------------------------------------------------------
  // Procedures
  // ---------------------------------------------------------------------------

  /** A result: one body when the status is NFS3_OK, another otherwise. */
  function Result(resok: Schema, resfail: Schema): Schema {
    Union(OnEnum, Case(NFS3_OK, resok, Default(resfail)))
  }

  const GETATTR3RES := Result(FATTR3, Void)
  const SETATTR3ARGS := Then(NFS_FH3, Then(SATTR3, SATTRGUARD3))
  const SETATTR3RES := Result(WCC_DATA, WCC_DATA)
  const LOOKUP3RES := Result(Then(NFS_FH3, Then(POST_OP_ATTR, POST_OP_ATTR)), POST_OP_ATTR)
  const ACCESS3RES := Result(Then(POST_OP_ATTR, Word), POST_OP_ATTR)
  const READLINK3RES := Result(Then(POST_OP_ATTR, FILENAME3), POST_OP_ATTR)
  const READ3ARGS := Then(NFS_FH3, Then(Hyper, Word))

  const DATA := Bytes(ANY_BYTES)

  /** READ3resok, WRITE3args: without the data when x_public asks for that. */
  function Read3resok(data: bool): Schema {
    Then(POST_OP_ATTR, Then(Word, if data then Then(Bool, DATA) else Bool))
  }

  function Read3res(data: bool): Schema {
    Result(Read3resok(data), POST_OP_ATTR)
  }

  function Write3args(data: bool): Schema {
    Then(NFS_FH3, Then(Hyper, Then(Word, if data then Then(Enum, DATA) else Enum)))
  }

  const WRITE3RES := Result(Then(WCC_DATA, Then(Word, Then(Enum, VERF3))), WCC_DATA)
  const CREATEHOW3 :=
    Union(OnEnum, Case(UNCHECKED, SATTR3, Case(GUARDED, SATTR3, Case(EXCLUSIVE, VERF3, NoDefault))))
  const CREATE3ARGS := Then(DIROPARGS3, CREATEHOW3)
  const NEWOBJ3RES := Result(Then(POST_OP_FH3, Then(POST_OP_ATTR, WCC_DATA)), WCC_DATA)  // CREATE, MKDIR, SYMLINK, MKNOD
  const MKDIR3ARGS := Then(DIROPARGS3, SATTR3)
  const SYMLINK3ARGS := Then(DIROPARGS3, Then(SATTR3, FILENAME3))
  const DEVICEDATA3 := Then(SATTR3, PAIR3)
  const MKNODDATA3 :=
    Union(OnEnum, Case(NF3CHR, DEVICEDATA3, Case(NF3BLK, DEVICEDATA3,
                  Case(NF3SOCK, SATTR3, Case(NF3FIFO, SATTR3, Default(Void))))))
  const MKNOD3ARGS := Then(DIROPARGS3, MKNODDATA3)
  const REMOVE3RES := Result(WCC_DATA, WCC_DATA)       // REMOVE, RMDIR
  const RENAME3ARGS := Then(DIROPARGS3, DIROPARGS3)
  const RENAME3RES := Result(Then(WCC_DATA, WCC_DATA), Then(WCC_DATA, WCC_DATA))
  const LINK3ARGS := Then(NFS_FH3, DIROPARGS3)
  const LINK3RES := Result(Then(POST_OP_ATTR, WCC_DATA), Then(POST_OP_ATTR, WCC_DATA))

  const READDIR3ARGS := Then(NFS_FH3, Then(Hyper, Then(VERF3, Word)))
  const ENTRY3 := Then(Hyper, Then(FILENAME3, Hyper))
  const DIRLIST3 := Then(List(ENTRY3), Bool)
  const READDIR3RES := Result(Then(POST_OP_ATTR, Then(VERF3, DIRLIST3)), POST_OP_ATTR)

  const READDIRPLUS3ARGS := Then(NFS_FH3, Then(Hyper, Then(VERF3, Then(Word, Word))))
  const ENTRYPLUS3 := Then(Hyper, Then(FILENAME3, Then(Hyper, Then(POST_OP_ATTR, POST_OP_FH3))))
  const DIRLISTPLUS3 := Then(List(ENTRYPLUS3), Bool)
  const READDIRPLUS3RES := Result(Then(POST_OP_ATTR, Then(VERF3, DIRLISTPLUS3)), POST_OP_ATTR)

  const FSSTAT3RES :=
    Result(Then(POST_OP_ATTR, Then(Hyper, Then(Hyper, Then(Hyper, Then(Hyper, Then(Hyper, Then(Hyper, Word))))))),
           POST_OP_ATTR)
  const FSINFO3RES :=
    Result(Then(POST_OP_ATTR, Then(Word, Then(Word, Then(Word, Then(Word, Then(Word, Then(Word, Then(Word,
           Then(Hyper, Then(PAIR3, Word)))))))))), POST_OP_ATTR)
  const COMMIT3ARGS := Then(NFS_FH3, Then(Hyper, Word))
  const COMMIT3RES := Result(Then(WCC_DATA, VERF3), WCC_DATA)

  const DIRPATH := Str(MNTPATHLEN)
  const NAME := Str(MNTNAMLEN)
  const MOUNTRES3 := OnlyIf(OnEnum, 0, Then(Bytes(FHSIZE), Array(Enum, ANY_INTS)))
  const MOUNTLIST := List(Then(NAME, DIRPATH))
  const GROUPS := List(NAME)
  const EXPORTS := List(Then(DIRPATH, GROUPS))

  // ---------------------------------------------------------------------------
  // Layouts
  // ---------------------------------------------------------------------------

  datatype Fattr3 = Fattr3(
    ftype: int, mode: int, nlink: int, uid: int, gid: int, size: int, used: int,
    rdev: (int, int), fsid: int, fileid: int, atime: (int, int), mtime: (int, int), ctime: (int, int))

  function Pair(p: (int, int)): Value {
    VPair(VInt(p.0), VInt(p.1))
  }

  function Fattr3Value(a: Fattr3): Value {
    VPair(VInt(a.ftype), VPair(VInt(a.mode), VPair(VInt(a.nlink), VPair(VInt(a.uid), VPair(VInt(a.gid),
    VPair(VInt(a.size), VPair(VInt(a.used), VPair(Pair(a.rdev), VPair(VInt(a.fsid), VPair(VInt(a.fileid),
    VPair(Pair(a.atime), VPair(Pair(a.mtime), Pair(a.ctime)))))))))))))
  }

  function WordAt(b: seq<byte>, i: nat): int
    requires i + 4 <= |b|
  {
    GetWord(b[i..])
  }

  function HyperAt(b: seq<byte>, i: nat): int
    requires i + 8 <= |b|
  {
    WordAt(b, i) * WORD + WordAt(b, i + 4)
  }

  function PairAt(b: seq<byte>, i: nat): (int, int)
    requires i + 8 <= |b|
  {
    (WordAt(b, i), WordAt(b, i + 4))
  }

  /** Attributes take 84 bytes, each field at its own offset (section 2.3.5 of RFC 1813). */
  function Fattr3At(b: seq<byte>): Fattr3
    requires |b| >= 84
  {
    Fattr3(Signed(WordAt(b, 0)), WordAt(b, 4), WordAt(b, 8), WordAt(b, 12), WordAt(b, 16),
           HyperAt(b, 20), HyperAt(b, 28), PairAt(b, 36), HyperAt(b, 44), HyperAt(b, 52),
           PairAt(b, 60), PairAt(b, 68), PairAt(b, 76))
  }

  /** A first field at offset i followed by the rest of the structure. */
  ghost predicate Taken(f: Schema, s: Schema, b: seq<byte>, i: nat, size: nat, v: Value)
    requires i + size <= |b|
  {
    var y := Decode(s, b[i + size..]);
    Decode(Then(f, s), b[i..]) == if y.Fail? then Fail else Done(VPair(v, y.v), y.rest)
  }

  lemma TakeWord(s: Schema, b: seq<byte>, i: nat)
    requires i + 4 <= |b|
    ensures Taken(Word, s, b, i, 4, VInt(WordAt(b, i))) && Taken(Enum, s, b, i, 4, VInt(Signed(WordAt(b, i))))
  {
    hide GetWord;
    assert b[i..][4..] == b[i + 4..];
    DecodeThen(Word, s, b[i..]);
    DecodeThen(Enum, s, b[i..]);
  }

  lemma TakeHyper(s: Schema, b: seq<byte>, i: nat)
    requires i + 8 <= |b|
    ensures Taken(Hyper, s, b, i, 8, VInt(HyperAt(b, i)))
  {
    hide GetWord;
    assert b[i..][8..] == b[i + 8..] && b[i..][4..] == b[i + 4..];
    DecodeThen(Hyper, s, b[i..]);
  }

  lemma PairLayout(b: seq<byte>, i: nat)
    requires i + 8 <= |b|
    ensures Decode(PAIR3, b[i..]) == Done(Pair(PairAt(b, i)), b[i + 8..])
  {
    hide GetWord;
    assert b[i..][4..] == b[i + 4..] && b[i + 4..][4..] == b[i + 8..];
    DecodeThen(Word, Word, b[i..]);
  }

  lemma TakePair(s: Schema, b: seq<byte>, i: nat)
    requires i + 8 <= |b|
    ensures Taken(PAIR3, s, b, i, 8, Pair(PairAt(b, i)))
  {
    hide Decode, GetWord;
    PairLayout(b, i);
    DecodeThen(PAIR3, s, b[i..]);
  }

  const FATTR3_TIMES := Then(PAIR3, Then(PAIR3, PAIR3))
  const FATTR3_TAIL := Then(PAIR3, Then(Hyper, Then(Hyper, FATTR3_TIMES)))

  lemma Fattr3TailLayout(b: seq<byte>)
    requires |b| >= 84
    ensures Decode(FATTR3_TAIL, b[36..]) ==
            Done(VPair(Pair(PairAt(b, 36)), VPair(VInt(HyperAt(b, 44)), VPair(VInt(HyperAt(b, 52)),
                 VPair(Pair(PairAt(b, 60)), VPair(Pair(PairAt(b, 68)), Pair(PairAt(b, 76))))))), b[84..])
  {
    hide Decode, WordAt, HyperAt, PairAt;
    TakePair(Then(Hyper, Then(Hyper, FATTR3_TIMES)), b, 36);
    TakeHyper(Then(Hyper, FATTR3_TIMES), b, 44);
    TakeHyper(FATTR3_TIMES, b, 52);
    TakePair(Then(PAIR3, PAIR3), b, 60);
    TakePair(PAIR3, b, 68);
    PairLayout(b, 76);
  }

  /** Attributes are read from exactly 84 bytes, field by field as RFC 1813 lays them out. */
  lemma Fattr3Layout(b: seq<byte>)
    ensures Decode(FATTR3, b) == if |b| < 84 then Fail else Done(Fattr3Value(Fattr3At(b)), b[84..])
  {
    hide Decode, WordAt, HyperAt, PairAt;
    if |b| < 84 {
      Fattr3Size(b);
    } else {
      assert b[0..] == b;
      TakeWord(Then(Word, Then(Word, Then(Word, Then(Word, Then(Hyper, Then(Hyper, FATTR3_TAIL)))))), b, 0);
      TakeWord(Then(Word, Then(Word, Then(Word, Then(Hyper, Then(Hyper, FATTR3_TAIL))))), b, 4);
      TakeWord(Then(Word, Then(Word, Then(Hyper, Then(Hyper, FATTR3_TAIL)))), b, 8);
      TakeWord(Then(Word, Then(Hyper, Then(Hyper, FATTR3_TAIL))), b, 12);
      TakeWord(Then(Hyper, Then(Hyper, FATTR3_TAIL)), b, 16);
      TakeHyper(Then(Hyper, FATTR3_TAIL), b, 20);
      TakeHyper(FATTR3_TAIL, b, 28);
      Fattr3TailLayout(b);
    }
  }

  lemma Fattr3Size(b: seq<byte>)
    ensures |b| < 84 ==> Decode(FATTR3, b).Fail?
  {
    hide Decode;
    DecodeTakesMinSize(FATTR3, b);
    assert MinSize(FATTR3_TIMES) == 24;
    assert MinSize(FATTR3_TAIL) == 48;
    assert MinSize(Then(Word, Then(Word, Then(Hyper, Then(Hyper, FATTR3_TAIL))))) == 72;
    assert MinSize(FATTR3) == 84;
  }

  // ---------------------------------------------------------------------------
  // Unions
  // ---------------------------------------------------------------------------

  lemma SelectCase(t: int, body: Schema, more: Arms, tag: int)
    ensures Select(Case(t, body, more), tag) == if t == tag then Some(body) else Select(more, tag)
  {}

  lemma CreateArms(mode: int)
    ensures Select(CREATEHOW3.arms, mode) ==
            if mode == UNCHECKED || mode == GUARDED then Some(SATTR3)
            else if mode == EXCLUSIVE then Some(VERF3)
            else None
  {
    var exclusive := Case(EXCLUSIVE, VERF3, NoDefault);
    SelectCase(UNCHECKED, SATTR3, Case(GUARDED, SATTR3, exclusive), mode);
    SelectCase(GUARDED, SATTR3, exclusive, mode);
  }

  /** createhow3 takes the three modes and no other, each with its own body, in both directions. */
  lemma CreateHowModes(mode: int, body: Value, b: seq<byte>)
    ensures Encode(CREATEHOW3, VUnion(mode, body)).Some? <==>
            || ((mode == UNCHECKED || mode == GUARDED) && Encode(SATTR3, body).Some?)
            || (mode == EXCLUSIVE && Encode(VERF3, body).Some?)
    ensures Decode(CREATEHOW3, b).Done? <==>
            && |b| >= 4
            && var m := Signed(GetWord(b));
               || ((m == UNCHECKED || m == GUARDED) && Decode(SATTR3, b[4..]).Done?)
               || (m == EXCLUSIVE && Decode(VERF3, b[4..]).Done?)
  {
    hide Encode, Decode, GetWord, Select;
    CreateArms(mode);
    EncodeUnion(OnEnum, CREATEHOW3.arms, mode, body);
    DecodeUnion(OnEnum, CREATEHOW3.arms, b);
    if |b| >= 4 { CreateArms(Signed(GetWord(b))); }
  }

  lemma MknodArms(ftype: int)
    ensures Select(MKNODDATA3.arms, ftype) ==
            Some(if ftype == NF3CHR || ftype == NF3BLK then DEVICEDATA3
                 else if ftype == NF3SOCK || ftype == NF3FIFO then SATTR3
                 else Void)
  {
    var fifo := Case(NF3FIFO, SATTR3, Default(Void));
    var sock := Case(NF3SOCK, SATTR3, fifo);
    var blk := Case(NF3BLK, DEVICEDATA3, sock);
    SelectCase(NF3CHR, DEVICEDATA3, blk, ftype);
    SelectCase(NF3BLK, DEVICEDATA3, sock, ftype);
    SelectCase(NF3SOCK, SATTR3, fifo, ftype);
  }

  /** Types mknod does not know are sent with no body and read back with no body. */
  lemma MknodOtherTypes(ftype: int, t: seq<byte>)
    requires -WORD / 2 <= ftype < WORD / 2 && ftype !in {NF3CHR, NF3BLK, NF3SOCK, NF3FIFO}
    ensures Encode(MKNODDATA3, VUnion(ftype, VVoid)) == Some(PutWord(ftype % WORD))
    ensures Decode(MKNODDATA3, PutWord(ftype % WORD) + t) == Done(VUnion(ftype, VVoid), t)
  {
    hide Encode, Decode, PutWord, GetWord, Select;
    MknodArms(ftype);
    EncodeUnion(OnEnum, MKNODDATA3.arms, ftype, VVoid);
    EncodeVoid();
    TagBack(OnEnum, ftype, t);
    DecodeUnion(OnEnum, MKNODDATA3.arms, PutWord(ftype % WORD) + t);
    DecodeVoid(t);
    assert PutWord(ftype % WORD) + [] == PutWord(ftype % WORD);
  }

  lemma EncodeVoid()
    ensures Encode(Void, VVoid) == Some([])
  {}

  lemma DecodeVoid(t: seq<byte>)
    ensures Decode(Void, t) == Done(VVoid, t)
  {}

  /**
   A set_it other than 0 and 1 is written as 1 but sends no value, so the reader takes the four
   bytes of the next field for the value: the message does not come back.
   */
  lemma UnclearSetItShiftsFields(setIt: int, t: seq<byte>)
    requires setIt != 0 && setIt != 1 && |t| >= 4
    ensures Encode(SET_WORD, VUnion(setIt, VVoid)) == Some(PutWord(1))
    ensures Decode(SET_WORD, PutWord(1) + t) == Done(VUnion(1, VInt(GetWord(t))), t[4..])
    ensures !WellFormed(SET_WORD, VUnion(setIt, VVoid))
  {
    hide Encode, Decode, PutWord, GetWord;
    EncodeUnion(OnBool, SET_WORD.arms, setIt, VVoid);
    EncodeVoid();
    assert PutWord(1) + [] == PutWord(1);
    WordBack(1, t);
    DecodeUnion(OnBool, SET_WORD.arms, PutWord(1) + t);
    DecodeWord(t);
  }

  lemma DecodeWord(b: seq<byte>)
    requires |b| >= 4
    ensures Decode(Word, b) == Done(VInt(GetWord(b)), b[4..])
    ensures Decode(Enum, b) == Done(VInt(Signed(GetWord(b))), b[4..])
    ensures Decode(Bool, b) == Done(VInt(Truth(GetWord(b))), b[4..])
  {}

  /** The optional attributes and handles, in contrast, refuse such a flag. */
  lemma OptionalRefusesUnclearFlag(body: Schema, flag: int, v: Value)
    ensures flag != 0 && flag != 1 ==> Encode(Optional(body), VUnion(flag, v)).None?
  {
    hide Encode;
    EncodeUnion(OnBool, Optional(body).arms, flag, v);
    SelectCase(1, body, Case(0, Void, NoDefault), flag);
  }

  // ---------------------------------------------------------------------------
  // READ and WRITE without their data
  // ---------------------------------------------------------------------------

  /** The structure s with one more field at its end. */
  function Append(s: Schema, e: Schema): Schema {
    match s
    case Then(a, c) => Then(a, Append(c, e))
    case _ => Then(s, e)
  }

  function AppendValue(s: Schema, v: Value, y: Value): Value {
    match (s, v)
    case (Then(_, c), VPair(x, w)) => VPair(x, AppendValue(c, w, y))
    case _ => VPair(v, y)
  }

  lemma {:induction false} AppendedDecode(s: Schema, e: Schema, b: seq<byte>)
    ensures var short := Decode(s, b);
            Decode(Append(s, e), b) ==
            if short.Fail? || Decode(e, short.rest).Fail? then Fail
            else Done(AppendValue(s, short.v, Decode(e, short.rest).v), Decode(e, short.rest).rest)
    decreases s
  {
    hide Decode;
    match s
    case Then(a, c) =>
      DecodeThen(a, c, b);
      DecodeThen(a, Append(c, e), b);
      if Decode(a, b).Done? { AppendedDecode(c, e, Decode(a, b).rest); }
    case _ =>
      DecodeThen(s, e, b);
  }

  /**
   A READ reply decodes in full exactly when it decodes without its data and, on NFS3_OK, the
   data can be read from where that decode stopped; all other fields are then the same.
   */
  lemma ReadShortcutAgrees(b: seq<byte>)
    ensures var full, short := Decode(Read3res(true), b), Decode(Read3res(false), b);
            && (short.Fail? ==> full.Fail?)
            && (short.Done? ==>
                && short.v.VUnion?
                && if short.v.tag != NFS3_OK then full == short
                   else
                     var data := Decode(DATA, short.rest);
                     full == if data.Fail? then Fail
                             else Done(VUnion(NFS3_OK, AppendValue(Read3resok(false), short.v.body, data.v)), data.rest))
  {
    hide Decode, GetWord, AppendValue;
    ReadFields();
    DecodeUnion(OnEnum, Read3res(true).arms, b);
    DecodeUnion(OnEnum, Read3res(false).arms, b);
    if |b| >= 4 { AppendedDecode(Read3resok(false), DATA, b[4..]); }
  }

  lemma ReadFields()
    ensures Read3resok(true) == Append(Read3resok(false), DATA)
  {
    assert Append(Then(Word, Bool), DATA) == Then(Word, Then(Bool, DATA));
  }

  /** The same for the arguments of WRITE. */
  lemma WriteShortcutAgrees(b: seq<byte>)
    ensures var full, short := Decode(Write3args(true), b), Decode(Write3args(false), b);
            && (short.Fail? ==> full.Fail?)
            && (short.Done? ==>
                  var data := Decode(DATA, short.rest);
                  full == if data.Fail? then Fail
                          else Done(AppendValue(Write3args(false), short.v, data.v), data.rest))
  {
    hide Decode, AppendValue;
    WriteFields();
    AppendedDecode(Write3args(false), DATA, b);
  }

  lemma WriteFields()
    ensures Write3args(true) == Append(Write3args(false), DATA)
  {
    assert Append(Then(Word, Enum), DATA) == Then(Word, Then(Enum, DATA));
    assert Append(Then(Hyper, Then(Word, Enum)), DATA) == Then(Hyper, Then(Word, Then(Enum, DATA)));
  }

  // ---------------------------------------------------------------------------
  // PATHCONF through the buffer
  // ---------------------------------------------------------------------------

  /** The four booleans, field by field, or as the words that the buffer macros copy. */
  function Flags(raw: bool): Schema {
    var f := if raw then Enum else Bool;
    Then(f, Then(f, Then(f, f)))
  }

  const PATHCONF_HEAD := Then(POST_OP_ATTR, Then(Word, Word))

  function Pathconf3resok(raw: bool): Schema {
    Then(POST_OP_ATTR, Then(Word, Then(Word, Flags(raw))))
  }

  function FlagValues(f: int -> int, b: seq<byte>): Value
    requires |b| >= 16
  {
    VPair(VInt(f(WordAt(b, 0))), VPair(VInt(f(WordAt(b, 4))), VPair(VInt(f(WordAt(b, 8))), VInt(f(WordAt(b, 12))))))
  }

  predicate Canonical(b: seq<byte>)
    requires |b| >= 16
  {
    WordAt(b, 0) <= 1 && WordAt(b, 4) <= 1 && WordAt(b, 8) <= 1 && WordAt(b, 12) <= 1
  }

  lemma FlagsLayout(raw: bool, b: seq<byte>)
    ensures Decode(Flags(raw), b) ==
            if |b| < 16 then Fail else Done(FlagValues(if raw then Signed else Truth, b), b[16..])
  {
    hide Decode, GetWord;
    var f := if raw then Enum else Bool;
    DecodeTakesMinSize(Flags(raw), b);
    assert MinSize(Then(f, Then(f, f))) == 12;
    assert MinSize(Flags(raw)) == 16;
    if |b| >= 16 {
      DecodeThen(f, Then(f, Then(f, f)), b);
      DecodeThen(f, Then(f, f), b[4..]);
      DecodeThen(f, f, b[8..]);
      assert b[4..][4..] == b[8..] && b[8..][4..] == b[12..] && b[12..][4..] == b[16..] && b[0..] == b;
      DecodeWord(b);
      DecodeWord(b[4..]);
      DecodeWord(b[8..]);
      DecodeWord(b[12..]);
    }
  }

  /** Where the head of the structure ends, and what decoding the whole comes to. */
  lemma PathconfParts(raw: bool, b: seq<byte>)
    ensures var h := Decode(PATHCONF_HEAD, b);
            && (h.Done? ==> h.v.VPair? && h.v.snd.VPair?)
            && Decode(Pathconf3resok(raw), b) ==
               (if h.Fail? || Decode(Flags(raw), h.rest).Fail? then Fail
                else Done(VPair(h.v.fst, VPair(h.v.snd.fst, VPair(h.v.snd.snd, Decode(Flags(raw), h.rest).v))),
                          Decode(Flags(raw), h.rest).rest))
  {
    hide Decode, Flags;
    DecodeThen(POST_OP_ATTR, Then(Word, Word), b);
    DecodeThen(POST_OP_ATTR, Then(Word, Then(Word, Flags(raw))), b);
    var a := Decode(POST_OP_ATTR, b);
    if a.Done? {
      DecodeThen(Word, Word, a.rest);
      DecodeThen(Word, Then(Word, Flags(raw)), a.rest);
      if Decode(Word, a.rest).Done? {
        DecodeThen(Word, Flags(raw), Decode(Word, a.rest).rest);
      }
    }
  }

  /** The decoding half of xdr_PATHCONF3resok: with 16 bytes input the buffer it copies the words. */
  method DecodePathconf3resok(b: seq<byte>) returns (r: Decoded)
    ensures r.Done? <==> Decode(Pathconf3resok(false), b).Done?
    ensures r.Done? ==> r == Decode(Pathconf3resok(true), b)
    ensures r == Decode(Pathconf3resok(false), b) <==>
            var h := Decode(PATHCONF_HEAD, b); h.Done? && |h.rest| >= 16 ==> Canonical(h.rest)
  {
    PathconfParts(false, b);
    PathconfParts(true, b);
    hide Decode, GetWord, Flags;
    var h := Decode(PATHCONF_HEAD, b);
    if h.Fail? {
      return Fail;
    }
    var input := h.rest;
    FlagsLayout(false, input);
    FlagsLayout(true, input);
    if |input| < 16 {
      r := Decode(Pathconf3resok(false), b);
    } else {
      var buf := 0;
      var noTrunc := Signed(WordAt(input, buf));
      buf := buf + 4;
      var chownRestricted := Signed(WordAt(input, buf));
      buf := buf + 4;
      var caseInsensitive := Signed(WordAt(input, buf));
      buf := buf + 4;
      var casePreserving := Signed(WordAt(input, buf));
      buf := buf + 4;
      r := Done(VPair(h.v.fst, VPair(h.v.snd.fst, VPair(h.v.snd.snd,
                VPair(VInt(noTrunc), VPair(VInt(chownRestricted), VPair(VInt(caseInsensitive), VInt(casePreserving))))))),
                input[buf..]);
    }
  }

  /** The words the flags are written as. */
  function FlagWord(raw: bool, f: int): int {
    if raw then f % WORD else Truth(f)
  }

  function FourWords(a: int, b: int, c: int, d: int): seq<byte>
    requires 0 <= a < WORD && 0 <= b < WORD && 0 <= c < WORD && 0 <= d < WORD
  {
    PutWord(a) + (PutWord(b) + (PutWord(c) + PutWord(d)))
  }

  lemma FourWordsApart(a: int, b: int, c: int, d: int, a': int, b': int, c': int, d': int)
    requires 0 <= a < WORD && 0 <= b < WORD && 0 <= c < WORD && 0 <= d < WORD
    requires 0 <= a' < WORD && 0 <= b' < WORD && 0 <= c' < WORD && 0 <= d' < WORD
    ensures FourWords(a, b, c, d) == FourWords(a', b', c', d') <==> (a, b, c, d) == (a', b', c', d')
  {
    hide PutWord, GetWord;
    WordBack(a, PutWord(b) + (PutWord(c) + PutWord(d)));
    WordBack(b, PutWord(c) + PutWord(d));
    WordBack(c, PutWord(d));
    WordBack(d, []);
    WordBack(a', PutWord(b') + (PutWord(c') + PutWord(d')));
    WordBack(b', PutWord(c') + PutWord(d'));
    WordBack(c', PutWord(d'));
    WordBack(d', []);
    assert PutWord(d) + [] == PutWord(d) && PutWord(d') + [] == PutWord(d');
  }

  lemma EncodeFlag(raw: bool, f: int)
    requires WellTagged(OnEnum, f)
    ensures Encode(if raw then Enum else Bool, VInt(f)) == Some(PutWord(FlagWord(raw, f)))
  {}

  lemma FlagBytes(raw: bool, f: (int, int, int, int))
    requires WellTagged(OnEnum, f.0) && WellTagged(OnEnum, f.1) && WellTagged(OnEnum, f.2) && WellTagged(OnEnum, f.3)
    ensures Encode(Flags(raw), VPair(VInt(f.0), VPair(VInt(f.1), VPair(VInt(f.2), VInt(f.3))))) ==
            Some(FourWords(FlagWord(raw, f.0), FlagWord(raw, f.1), FlagWord(raw, f.2), FlagWord(raw, f.3)))
  {
    hide Encode, PutWord;
    var s := if raw then Enum else Bool;
    EncodeFlag(raw, f.0);
    EncodeFlag(raw, f.1);
    EncodeFlag(raw, f.2);
    EncodeFlag(raw, f.3);
    EncodeThen(s, s, VInt(f.2), VInt(f.3));
    EncodeThen(s, Then(s, s), VInt(f.1), VPair(VInt(f.2), VInt(f.3)));
    EncodeThen(s, Then(s, Then(s, s)), VInt(f.0), VPair(VInt(f.1), VPair(VInt(f.2), VInt(f.3))));
  }

  lemma PathconfBytes(raw: bool, a: Value, linkmax: int, nameMax: int, fv: Value)
    ensures Encode(Pathconf3resok(raw), VPair(a, VPair(VInt(linkmax), VPair(VInt(nameMax), fv)))) ==
            Joined(Encode(POST_OP_ATTR, a),
                   Joined(Encode(Word, VInt(linkmax)), Joined(Encode(Word, VInt(nameMax)), Encode(Flags(raw), fv))))
  {
    hide Encode, Flags;
    EncodeThen(Word, Flags(raw), VInt(nameMax), fv);
    EncodeThen(Word, Then(Word, Flags(raw)), VInt(linkmax), VPair(VInt(nameMax), fv));
    EncodeThen(POST_OP_ATTR, Then(Word, Then(Word, Flags(raw))), a, VPair(VInt(linkmax), VPair(VInt(nameMax), fv)));
  }

  lemma SamePrefix(p: seq<byte>, q: seq<byte>, w: seq<byte>, x: seq<byte>, y: seq<byte>)
    ensures p + (q + (w + x)) == p + (q + (w + y)) <==> x == y
  {
    if p + (q + (w + x)) == p + (q + (w + y)) {
      assert x == (p + (q + (w + x)))[|p| + |q| + |w|..];
      assert y == (p + (q + (w + y)))[|p| + |q| + |w|..];
    }
  }

  /** The encoding half agrees with the field-by-field one exactly on flags 0 and 1. */
  lemma PathconfEncodersAgree(a: Value, linkmax: int, nameMax: int, f: (int, int, int, int))
    requires Encode(POST_OP_ATTR, a).Some? && 0 <= linkmax < WORD && 0 <= nameMax < WORD
    requires WellTagged(OnEnum, f.0) && WellTagged(OnEnum, f.1) && WellTagged(OnEnum, f.2) && WellTagged(OnEnum, f.3)
    ensures var v := VPair(a, VPair(VInt(linkmax), VPair(VInt(nameMax),
                     VPair(VInt(f.0), VPair(VInt(f.1), VPair(VInt(f.2), VInt(f.3)))))));
            && Encode(Pathconf3resok(true), v).Some? && Encode(Pathconf3resok(false), v).Some?
            && (Encode(Pathconf3resok(true), v) == Encode(Pathconf3resok(false), v) <==>
                0 <= f.0 <= 1 && 0 <= f.1 <= 1 && 0 <= f.2 <= 1 && 0 <= f.3 <= 1)
  {
    hide Encode, PutWord, Flags, FourWords;
    var fv := VPair(VInt(f.0), VPair(VInt(f.1), VPair(VInt(f.2), VInt(f.3))));
    FlagBytes(true, f);
    FlagBytes(false, f);
    PathconfBytes(true, a, linkmax, nameMax, fv);
    PathconfBytes(false, a, linkmax, nameMax, fv);
    EncodeWord(linkmax);
    EncodeWord(nameMax);
    SamePrefix(Encode(POST_OP_ATTR, a).value, PutWord(linkmax), PutWord(nameMax),
               Encode(Flags(true), fv).value, Encode(Flags(false), fv).value);
    FourWordsApart(FlagWord(true, f.0), FlagWord(true, f.1), FlagWord(true, f.2), FlagWord(true, f.3),
                   FlagWord(false, f.0), FlagWord(false, f.1), FlagWord(false, f.2), FlagWord(false, f.3));
  }

  lemma EncodeWord(i: int)
    requires 0 <= i < WORD
    ensures Encode(Word, VInt(i)) == Some(PutWord(i))
  {
  }

  // ---------------------------------------------------------------------------
  // Directory and export lists
  // ---------------------------------------------------------------------------

  /** A directory listing of n entries took at least 24 bytes for each, and 8 more. */
  lemma DirlistTakes(b: seq<byte>)
    ensures var r := Decode(DIRLIST3, b);
            r.Done? ==> r.v.VPair? && |b| - |r.rest| >= 24 * Length(r.v.fst) + 8
  {
    hide Decode, DecodeList;
    DecodeThen(List(ENTRY3), Bool, b);
    ListIsChain(ENTRY3, VNil, b);
    ListTakesMinSize(ENTRY3, b);
    assert MinSize(ENTRY3) == 20;
    var x := Decode(List(ENTRY3), b);
    if x.Done? { DecodeTakesMinSize(Bool, x.rest); }
  }

  /** With attributes and handles, at least 32 bytes for each entry. */
  lemma DirlistplusTakes(b: seq<byte>)
    ensures var r := Decode(DIRLISTPLUS3, b);
            r.Done? ==> r.v.VPair? && |b| - |r.rest| >= 32 * Length(r.v.fst) + 8
  {
    hide Decode, DecodeList;
    DecodeThen(List(ENTRYPLUS3), Bool, b);
    ListIsChain(ENTRYPLUS3, VNil, b);
    ListTakesMinSize(ENTRYPLUS3, b);
    assert MinSize(Then(Hyper, Then(POST_OP_ATTR, POST_OP_FH3))) == 16;
    assert MinSize(ENTRYPLUS3) == 28;
    var x := Decode(List(ENTRYPLUS3), b);
    if x.Done? { DecodeTakesMinSize(Bool, x.rest); }
  }

  datatype Entry3 = Entry3(
    fileid: int, name: seq<byte>, cookie: int, attributes: Option<Fattr3>, handle: Option<seq<byte>>)

  predicate FitsWord(i: int) {
    0 <= i < WORD
  }

  predicate FitsPair(p: (int, int)) {
    FitsWord(p.0) && FitsWord(p.1)
  }

  predicate FitsHyper(i: int) {
    0 <= i < HYPER
  }

  predicate FitsFattr3(a: Fattr3) {
    && WellTagged(OnEnum, a.ftype)
    && FitsWord(a.mode) && FitsWord(a.nlink) && FitsWord(a.uid) && FitsWord(a.gid)
    && FitsHyper(a.size) && FitsHyper(a.used) && FitsPair(a.rdev) && FitsHyper(a.fsid) && FitsHyper(a.fileid)
    && FitsPair(a.atime) && FitsPair(a.mtime) && FitsPair(a.ctime)
  }

  /** Numbers in range, a name without NUL, a handle of at most 64 bytes. */
  predicate FitsEntry(e: Entry3) {
    && FitsHyper(e.fileid) && FitsHyper(e.cookie)
    && |e.name| <= ANY_STRING && 0 !in e.name
    && (e.attributes.Some? ==> FitsFattr3(e.attributes.value))
    && (e.handle.Some? ==> |e.handle.value| <= FHSIZE)
  }

  function OptionalValue(v: Option<Value>): Value {
    match v
    case None => VUnion(0, VVoid)
    case Some(x) => VUnion(1, x)
  }

  function AttributesValue(a: Option<Fattr3>): Value {
    OptionalValue(if a.Some? then Some(Fattr3Value(a.value)) else None)
  }

  function EntryValue(e: Entry3): Value {
    VPair(VInt(e.fileid), VPair(VBytes(e.name), VPair(VInt(e.cookie), VPair(
      AttributesValue(e.attributes),
      OptionalValue(if e.handle.Some? then Some(VBytes(e.handle.value)) else None)))))
  }

  function EntriesValue(entries: seq<Entry3>): Value {
    if entries == [] then VNil else VCons(EntryValue(entries[0]), EntriesValue(entries[1..]))
  }

  lemma NumbersWellFormed(i: int)
    ensures WellFormed(Word, VInt(i)) <==> FitsWord(i)
    ensures WellFormed(Hyper, VInt(i)) <==> FitsHyper(i)
    ensures WellFormed(Enum, VInt(i)) <==> WellTagged(OnEnum, i)
    ensures WellFormed(Bool, VInt(i)) <==> WellTagged(OnBool, i)
  {}

  lemma PairWellFormed(p: (int, int))
    ensures WellFormed(PAIR3, Pair(p)) <==> FitsPair(p)
  {}

  /** The first field of a structure and the rest of it. */
  lemma FieldWellFormed(s: Schema, v: Value)
    requires s.Then? && v.VPair?
    ensures WellFormed(s, v) <==> WellFormed(s.first, v.fst) && WellFormed(s.second, v.snd)
  {}

  lemma FattrWellFormed(a: Fattr3)
    ensures WellFormed(FATTR3, Fattr3Value(a)) <==> FitsFattr3(a)
  {
    hide WellFormed, FitsWord, FitsHyper, FitsPair;
    var v := Fattr3Value(a);
    FieldWellFormed(FATTR3, v);
    NumbersWellFormed(a.ftype);
    FieldWellFormed(FATTR3.second, v.snd);
    NumbersWellFormed(a.mode);
    FieldWellFormed(FATTR3.second.second, v.snd.snd);
    NumbersWellFormed(a.nlink);
    var s3, v3 := FATTR3.second.second.second, v.snd.snd.snd;
    FieldWellFormed(s3, v3);
    NumbersWellFormed(a.uid);
    FieldWellFormed(s3.second, v3.snd);
    NumbersWellFormed(a.gid);
    FieldWellFormed(s3.second.second, v3.snd.snd);
    NumbersWellFormed(a.size);
    var s6, v6 := s3.second.second.second, v3.snd.snd.snd;
    FieldWellFormed(s6, v6);
    NumbersWellFormed(a.used);
    FieldWellFormed(s6.second, v6.snd);
    PairWellFormed(a.rdev);
    FieldWellFormed(s6.second.second, v6.snd.snd);
    NumbersWellFormed(a.fsid);
    var s9, v9 := s6.second.second.second, v6.snd.snd.snd;
    FieldWellFormed(s9, v9);
    NumbersWellFormed(a.fileid);
    FieldWellFormed(s9.second, v9.snd);
    PairWellFormed(a.atime);
    FieldWellFormed(s9.second.second, v9.snd.snd);
    PairWellFormed(a.mtime);
    PairWellFormed(a.ctime);
  }

  lemma OptionalWellFormed(body: Schema, v: Option<Value>)
    ensures WellFormed(Optional(body), OptionalValue(v)) <==> (v.Some? ==> WellFormed(body, v.value))
  {
    SelectCase(1, body, Case(0, Void, NoDefault), 0);
    assert WellFormed(Void, VVoid);
  }

  lemma EntryWellFormed(e: Entry3)
    ensures WellFormed(ENTRYPLUS3, EntryValue(e)) <==> FitsEntry(e)
  {
    hide WellFormed, Optional, OptionalValue, FitsFattr3, Fattr3Value;
    var v := EntryValue(e);
    FieldWellFormed(ENTRYPLUS3, v);
    NumbersWellFormed(e.fileid);
    FieldWellFormed(ENTRYPLUS3.second, v.snd);
    BytesWellFormed(e.name);
    FieldWellFormed(ENTRYPLUS3.second.second, v.snd.snd);
    NumbersWellFormed(e.cookie);
    FieldWellFormed(ENTRYPLUS3.second.second.second, v.snd.snd.snd);
    AttributesWellFormed(e.attributes);
    OptionalWellFormed(NFS_FH3, if e.handle.Some? then Some(VBytes(e.handle.value)) else None);
    if e.handle.Some? { BytesWellFormed(e.handle.value); }
  }

  lemma AttributesWellFormed(a: Option<Fattr3>)
    ensures WellFormed(POST_OP_ATTR, AttributesValue(a)) <==> (a.Some? ==> FitsFattr3(a.value))
  {
    hide WellFormed, Optional, OptionalValue, FitsFattr3, Fattr3Value;
    OptionalWellFormed(FATTR3, if a.Some? then Some(Fattr3Value(a.value)) else None);
    if a.Some? { FattrWellFormed(a.value); }
  }

  lemma BytesWellFormed(b: seq<byte>)
    ensures WellFormed(FILENAME3, VBytes(b)) <==> |b| <= ANY_STRING && 0 !in b
    ensures WellFormed(NFS_FH3, VBytes(b)) <==> |b| <= FHSIZE
    ensures WellFormed(VERF3, VBytes(b)) <==> |b| == VERFSIZE
    ensures WellFormed(DIRPATH, VBytes(b)) <==> |b| <= MNTPATHLEN && 0 !in b
    ensures WellFormed(NAME, VBytes(b)) <==> |b| <= MNTNAMLEN && 0 !in b
  {}

  lemma {:induction false} EntriesWellFormed(entries: seq<Entry3>)
    ensures AllWellFormed(ENTRYPLUS3, EntriesValue(entries)) <==> forall e :: e in entries ==> FitsEntry(e)
  {
    hide WellFormed, FitsEntry, EntryValue;
    if entries != [] {
      EntryWellFormed(entries[0]);
      EntriesWellFormed(entries[1..]);
      assert forall e :: e in entries <==> e == entries[0] || e in entries[1..];
    }
  }

  function DirectoryReply(attributes: Option<Fattr3>, verf: seq<byte>, entries: seq<Entry3>, eof: bool): Value {
    VUnion(NFS3_OK, VPair(AttributesValue(attributes), VPair(VBytes(verf),
      VPair(EntriesValue(entries), VInt(if eof then 1 else 0)))))
  }

  /**
   A READDIRPLUS reply of any number of entries comes back from its encoding, whatever follows
   it, exactly when its numbers are in range, its names have no NUL, its handles have at most
   64 bytes and its verifier has 8.
   */
  lemma ReaddirplusRoundTrip(attributes: Option<Fattr3>, verf: seq<byte>, entries: seq<Entry3>, eof: bool, t: seq<byte>)
    ensures var v := DirectoryReply(attributes, verf, entries, eof);
            Encode(READDIRPLUS3RES, v).Some? && Decode(READDIRPLUS3RES, Encode(READDIRPLUS3RES, v).value + t) == Done(v, t)
            <==>
            && (attributes.Some? ==> FitsFattr3(attributes.value))
            && |verf| == VERFSIZE
            && (forall e :: e in entries ==> FitsEntry(e))
  {
    hide Encode, Decode, WellFormed, FitsEntry, FitsFattr3, AttributesValue, EntriesValue;
    var v := DirectoryReply(attributes, verf, entries, eof);
    RoundTripIffWellFormed(READDIRPLUS3RES, v, t);
    var resok := Then(POST_OP_ATTR, Then(VERF3, DIRLISTPLUS3));
    ResultWellFormed(resok, POST_OP_ATTR, v.body);
    FieldWellFormed(resok, v.body);
    AttributesWellFormed(attributes);
    FieldWellFormed(resok.second, v.body.snd);
    BytesWellFormed(verf);
    FieldWellFormed(DIRLISTPLUS3, v.body.snd.snd);
    NumbersWellFormed(if eof then 1 else 0);
    ListWellFormed(ENTRYPLUS3, EntriesValue(entries));
    EntriesWellFormed(entries);
  }

  lemma ResultWellFormed(resok: Schema, resfail: Schema, body: Value)
    ensures WellFormed(Result(resok, resfail), VUnion(NFS3_OK, body)) <==> WellFormed(resok, body)
  {}

  lemma ListWellFormed(e: Schema, v: Value)
    ensures WellFormed(List(e), v) <==> AllWellFormed(e, v)
  {}

  /** Two replies with the same value are the same reply: nothing is lost in the value. */
  lemma {:induction false} EntriesValueInjective(a: seq<Entry3>, b: seq<Entry3>)
    requires EntriesValue(a) == EntriesValue(b)
    ensures a == b
  {
    if a != [] {
      EntriesValueInjective(a[1..], b[1..]);
      assert a == [a[0]] + a[1..] && b == [b[0]] + b[1..];
    }
  }

  datatype Export = Export(dir: seq<byte>, groups: seq<seq<byte>>)

  predicate FitsGroup(g: seq<byte>) {
    |g| <= MNTNAMLEN && 0 !in g
  }

  predicate FitsExport(e: Export) {
    && |e.dir| <= MNTPATHLEN && 0 !in e.dir
    && forall g :: g in e.groups ==> FitsGroup(g)
  }

  function GroupsValue(groups: seq<seq<byte>>): Value {
    if groups == [] then VNil else VCons(VBytes(groups[0]), GroupsValue(groups[1..]))
  }

  function ExportsValue(exports: seq<Export>): Value {
    if exports == [] then VNil
    else VCons(VPair(VBytes(exports[0].dir), GroupsValue(exports[0].groups)), ExportsValue(exports[1..]))
  }

  lemma {:induction false} GroupsWellFormed(groups: seq<seq<byte>>)
    ensures AllWellFormed(NAME, GroupsValue(groups)) <==> forall g :: g in groups ==> FitsGroup(g)
  {
    hide WellFormed;
    if groups != [] {
      BytesWellFormed(groups[0]);
      assert FitsGroup(groups[0]) <==> WellFormed(NAME, VBytes(groups[0]));
      GroupsWellFormed(groups[1..]);
      assert forall g :: g in groups <==> g == groups[0] || g in groups[1..];
    }
  }

  lemma {:induction false} ExportsWellFormed(exports: seq<Export>)
    ensures AllWellFormed(EXPORTS.elem, ExportsValue(exports)) <==> forall e :: e in exports ==> FitsExport(e)
  {
    hide WellFormed, GroupsValue;
    if exports != [] {
      var e := exports[0];
      FieldWellFormed(EXPORTS.elem, VPair(VBytes(e.dir), GroupsValue(e.groups)));
      BytesWellFormed(e.dir);
      ListWellFormed(NAME, GroupsValue(e.groups));
      GroupsWellFormed(e.groups);
      assert FitsExport(e) <==> WellFormed(EXPORTS.elem, VPair(VBytes(e.dir), GroupsValue(e.groups)));
      ExportsWellFormed(exports[1..]);
      assert forall x :: x in exports <==> x == exports[0] || x in exports[1..];
    }
  }

  /** The nested lists of an EXPORT reply, in the same way. */
  lemma ExportsRoundTrip(exports: seq<Export>, t: seq<byte>)
    ensures var v := ExportsValue(exports);
            Encode(EXPORTS, v).Some? && Decode(EXPORTS, Encode(EXPORTS, v).value + t) == Done(v, t) <==>
            forall e :: e in exports ==> FitsExport(e)
  {
    hide Encode, Decode, WellFormed, AllWellFormed, ExportsValue, FitsExport;
    RoundTripIffWellFormed(EXPORTS, ExportsValue(exports), t);
    ListWellFormed(EXPORTS.elem, ExportsValue(exports));
    ExportsWellFormed(exports);
  }

  lemma {:induction false} GroupsValueInjective(a: seq<seq<byte>>, b: seq<seq<byte>>)
    requires GroupsValue(a) == GroupsValue(b)
    ensures a == b
  {
    if a != [] {
      GroupsValueInjective(a[1..], b[1..]);
      assert a == [a[0]] + a[1..] && b == [b[0]] + b[1..];
    }
  }

  lemma {:induction false} ExportsValueInjective(a: seq<Export>, b: seq<Export>)
    requires ExportsValue(a) == ExportsValue(b)
    ensures a == b
  {
    hide GroupsValue;
    if a != [] {
      GroupsValueInjective(a[0].groups, b[0].groups);
      ExportsValueInjective(a[1..], b[1..]);
      assert a == [a[0]] + a[1..] && b == [b[0]] + b[1..];
    }
  }

  // ---------------------------------------------------------------------------
  // The bytes of two messages, in the order of RFC 1813
  // ---------------------------------------------------------------------------

  function HyperBytes(i: int): seq<byte>
    requires FitsHyper(i)
  {
    PutWord(i / WORD) + PutWord(i % WORD)
  }

  /** A length and that many bytes, filled up to whole words. */
  function CountedBytes(b: seq<byte>): seq<byte>
    requires |b| < WORD
  {
    PutWord(|b|) + PutOpaque(b)
  }

  lemma EncodeLeaves(i: int, b: seq<byte>)
    ensures FitsHyper(i) ==> Encode(Hyper, VInt(i)) == Some(HyperBytes(i))
    ensures WellTagged(OnEnum, i) ==> Encode(Enum, VInt(i)) == Some(PutWord(i % WORD))
    ensures |b| <= FHSIZE ==> Encode(NFS_FH3, VBytes(b)) == Some(CountedBytes(b))
    ensures |b| <= ANY_BYTES ==> Encode(DATA, VBytes(b)) == Some(CountedBytes(b))
    ensures |b| <= ANY_STRING && 0 !in b ==> Encode(FILENAME3, VBytes(b)) == Some(CountedBytes(b))
  {
    hide Encode, PutWord, PutOpaque;
    EncodeIntegers(i);
    EncodeCounted(FHSIZE, b);
    EncodeCounted(ANY_BYTES, b);
    EncodeCounted(ANY_STRING, b);
  }

  lemma EncodeIntegers(i: int)
    ensures FitsHyper(i) ==> Encode(Hyper, VInt(i)) == Some(HyperBytes(i))
    ensures WellTagged(OnEnum, i) ==> Encode(Enum, VInt(i)) == Some(PutWord(i % WORD))
  {
    hide PutWord;
  }

  lemma EncodeCounted(max: nat, b: seq<byte>)
    requires max < WORD
    ensures |b| <= max ==> Encode(Bytes(max), VBytes(b)) == Some(CountedBytes(b))
    ensures |b| <= max && 0 !in b ==> Encode(Str(max), VBytes(b)) == Some(CountedBytes(b))
  {
    hide PutWord, PutOpaque, CString;
    if 0 !in b { NoNul(b); }
    assert b[..|b|] == b;
  }

  /** WRITE arguments: handle, offset, count, stability, data (section 3.3.7 of RFC 1813). */
  lemma WriteLayout(file: seq<byte>, offset: int, count: int, stable: int, data: seq<byte>)
    requires |file| <= FHSIZE && FitsHyper(offset) && FitsWord(count) && WellTagged(OnEnum, stable) && |data| <= ANY_BYTES
    ensures Encode(Write3args(true),
              VPair(VBytes(file), VPair(VInt(offset), VPair(VInt(count), VPair(VInt(stable), VBytes(data)))))) ==
            Some(CountedBytes(file) + (HyperBytes(offset) + (PutWord(count) + (PutWord(stable % WORD) + CountedBytes(data)))))
  {
    hide Encode, PutWord, CountedBytes, HyperBytes;
    var v3 := VPair(VInt(stable), VBytes(data));
    var v2 := VPair(VInt(count), v3);
    var s3 := Then(Enum, DATA);
    var s2 := Then(Word, s3);
    EncodeLeaves(offset, file);
    EncodeLeaves(stable, data);
    EncodeWord(count);
    EncodeThen(Enum, DATA, VInt(stable), VBytes(data));
    EncodeThen(Word, s3, VInt(count), v3);
    EncodeThen(Hyper, s2, VInt(offset), v2);
    EncodeThen(NFS_FH3, Then(Hyper, s2), VBytes(file), VPair(VInt(offset), v2));
  }

  function PairBytes(p: (int, int)): seq<byte>
    requires FitsPair(p)
  {
    PutWord(p.0) + PutWord(p.1)
  }

  /** The 84 bytes of attributes (section 2.3.5 of RFC 1813). */
  function Fattr3Bytes(a: Fattr3): seq<byte>
    requires FitsFattr3(a)
  {
    PutWord(a.ftype % WORD) + (PutWord(a.mode) + (PutWord(a.nlink) + (PutWord(a.uid) + (PutWord(a.gid) + (
    HyperBytes(a.size) + (HyperBytes(a.used) + (PairBytes(a.rdev) + (HyperBytes(a.fsid) + (HyperBytes(a.fileid) + (
    PairBytes(a.atime) + (PairBytes(a.mtime) + PairBytes(a.ctime))))))))))))
  }

  lemma EncodePair(p: (int, int))
    requires FitsPair(p)
    ensures Encode(PAIR3, Pair(p)) == Some(PairBytes(p))
  {
    hide PutWord;
    EncodeThen(Word, Word, VInt(p.0), VInt(p.1));
  }

  lemma Fattr3TailWritten(a: Fattr3)
    requires FitsFattr3(a)
    ensures Encode(FATTR3_TAIL,
              VPair(Pair(a.rdev), VPair(VInt(a.fsid), VPair(VInt(a.fileid), VPair(Pair(a.atime), VPair(Pair(a.mtime), Pair(a.ctime))))))) ==
            Some(PairBytes(a.rdev) + (HyperBytes(a.fsid) + (HyperBytes(a.fileid) + (
                 PairBytes(a.atime) + (PairBytes(a.mtime) + PairBytes(a.ctime))))))
  {
    hide Encode, PutWord, HyperBytes, PairBytes;
    EncodePair(a.rdev);
    EncodePair(a.atime);
    EncodePair(a.mtime);
    EncodePair(a.ctime);
    EncodeLeaves(a.fsid, []);
    EncodeLeaves(a.fileid, []);
    var v5 := VPair(Pair(a.mtime), Pair(a.ctime));
    var v4 := VPair(Pair(a.atime), v5);
    var v3 := VPair(VInt(a.fileid), v4);
    var v2 := VPair(VInt(a.fsid), v3);
    EncodeThen(PAIR3, PAIR3, Pair(a.mtime), Pair(a.ctime));
    EncodeThen(PAIR3, Then(PAIR3, PAIR3), Pair(a.atime), v5);
    EncodeThen(Hyper, FATTR3_TIMES, VInt(a.fileid), v4);
    EncodeThen(Hyper, Then(Hyper, FATTR3_TIMES), VInt(a.fsid), v3);
    EncodeThen(PAIR3, Then(Hyper, Then(Hyper, FATTR3_TIMES)), Pair(a.rdev), v2);
  }

  /** Attributes are written as the same 84 bytes they are read from. */
  lemma Fattr3Written(a: Fattr3)
    requires FitsFattr3(a)
    ensures Encode(FATTR3, Fattr3Value(a)) == Some(Fattr3Bytes(a)) && |Fattr3Bytes(a)| == 84
  {
    hide Encode, FitsHyper, FitsPair, FitsWord;
    Fattr3TailWritten(a);
    EncodeLeaves(a.ftype, []);
    EncodeNumber(a.mode);
    EncodeNumber(a.nlink);
    EncodeNumber(a.uid);
    EncodeNumber(a.gid);
    EncodeLeaves(a.size, []);
    EncodeLeaves(a.used, []);
    var v := Fattr3Value(a);
    var v5 := v.snd.snd.snd.snd.snd;
    var s6 := Then(Hyper, FATTR3_TAIL);
    var s5 := Then(Hyper, s6);
    EncodeThen(Hyper, FATTR3_TAIL, VInt(a.used), v5.snd.snd);
    EncodeThen(Hyper, s6, VInt(a.size), v5.snd);
    EncodeThen(Word, s5, VInt(a.gid), v5);
    EncodeThen(Word, Then(Word, s5), VInt(a.uid), v.snd.snd.snd.snd);
    EncodeThen(Word, Then(Word, Then(Word, s5)), VInt(a.nlink), v.snd.snd.snd);
    EncodeThen(Word, Then(Word, Then(Word, Then(Word, s5))), VInt(a.mode), v.snd.snd);
    EncodeThen(Enum, Then(Word, Then(Word, Then(Word, Then(Word, s5)))), VInt(a.ftype), v.snd);
  }

  lemma EncodeNumber(i: int)
    requires FitsWord(i)
    ensures Encode(Word, VInt(i)) == Some(PutWord(i))
  {}

  /** Optional attributes: a word 1 and the attributes, or a word 0. */
  function AttributesBytes(a: Option<Fattr3>): seq<byte>
    requires a.Some? ==> FitsFattr3(a.value)
  {
    if a.None? then PutWord(0) else PutWord(1) + Fattr3Bytes(a.value)
  }

  lemma AttributesWritten(a: Option<Fattr3>)
    requires a.Some? ==> FitsFattr3(a.value)
    ensures Encode(POST_OP_ATTR, AttributesValue(a)) == Some(AttributesBytes(a))
  {
    hide Encode, PutWord, Fattr3Bytes, FitsFattr3, Fattr3Value;
    var v := AttributesValue(a);
    EncodeVoid();
    EncodeUnion(OnBool, POST_OP_ATTR.arms, v.tag, v.body);
    SelectCase(1, FATTR3, Case(0, Void, NoDefault), v.tag);
    assert PutWord(0) + [] == PutWord(0);
    if a.Some? { Fattr3Written(a.value); }
  }

  /** A READDIRPLUS entry: file id, name, cookie, attributes, handle (section 3.3.17 of RFC 1813). */
  lemma EntryLayout(e: Entry3)
    requires FitsEntry(e)
    ensures Encode(ENTRYPLUS3, EntryValue(e)) ==
            Some(HyperBytes(e.fileid) + (CountedBytes(e.name) + (HyperBytes(e.cookie) + (
                 AttributesBytes(e.attributes) +
                 (if e.handle.None? then PutWord(0) else PutWord(1) + CountedBytes(e.handle.value))))))
  {
    hide Encode, PutWord, CountedBytes, HyperBytes, FitsFattr3, AttributesValue, AttributesBytes;
    var v := EntryValue(e);
    var a, h := v.snd.snd.snd.fst, v.snd.snd.snd.snd;
    var s3 := Then(POST_OP_ATTR, POST_OP_FH3);
    var s2 := Then(Hyper, s3);
    AttributesWritten(e.attributes);
    EncodeLeaves(e.fileid, e.name);
    EncodeLeaves(e.cookie, if e.handle.Some? then e.handle.value else []);
    EncodeVoid();
    EncodeUnion(OnBool, POST_OP_FH3.arms, h.tag, h.body);
    SelectCase(1, NFS_FH3, Case(0, Void, NoDefault), h.tag);
    assert PutWord(0) + [] == PutWord(0);
    EncodeThen(POST_OP_ATTR, POST_OP_FH3, a, h);
    EncodeThen(Hyper, s3, VInt(e.cookie), VPair(a, h));
    EncodeThen(FILENAME3, s2, VBytes(e.name), v.snd.snd);
    EncodeThen(Hyper, Then(FILENAME3, s2), VInt(e.fileid), v.snd);
  }
}
