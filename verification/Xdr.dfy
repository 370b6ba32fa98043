/**
 The XDR primitives the routines of src/nfsv3/nfs3_xdr.c are chains of, as a language of
 schemas with one encoder and one decoder. A schema says which primitive calls a routine makes
 and in which order; RFC 4506 gives the bytes of each.
 */
module Xdr {
  import opened Base

  const WORD := 0x1_0000_0000
  const HYPER := 0x1_0000_0000_0000_0000

  datatype Disc = OnBool | OnEnum

  datatype Schema =
    | Void
    | Word                                    // xdr_u_long, xdr_u_int
    | Enum                                    // xdr_enum, xdr_int
    | Bool                                    // xdr_bool
    | Hyper                                   // xdr_u_quad_t
    | Opaque(size: nat)                       // xdr_opaque
    | Bytes(max: nat)                         // xdr_bytes
    | Str(max: nat)                           // xdr_string
    | Then(first: Schema, second: Schema)     // one call after another
    | Union(disc: Disc, arms: Arms)           // a switch on a discriminant that was just handled
    | List(elem: Schema)                      // a chain of xdr_pointer
    | Array(elem: Schema, max: nat)           // xdr_array

  /** The cases of a switch, in order; without a default the other tags are refused. */
  datatype Arms =
    | Case(tag: int, body: Schema, more: Arms)
    | Default(body: Schema)
    | NoDefault

  datatype Value =
    | VVoid
    | VInt(i: int)
    | VBytes(bytes: seq<byte>)
    | VPair(fst: Value, snd: Value)
    | VUnion(tag: int, body: Value)
    | VNil
    | VCons(head: Value, tail: Value)

  datatype Decoded = Fail | Done(v: Value, rest: seq<byte>)

  // ---------------------------------------------------------------------------
  // Words, padding, strings
  // ---------------------------------------------------------------------------

  function PutWord(w: int): seq<byte>
    requires 0 <= w < WORD
  {
    [(w / 0x100_0000) as byte, (w / 0x1_0000 % 0x100) as byte, (w / 0x100 % 0x100) as byte, (w % 0x100) as byte]
  }

  /** How many bytes fill n up to a multiple of four. */
  function Pad(n: nat): nat {
    (4 - n % 4) % 4
  }

  /** What strlen sees of a buffer. */
  function CString(b: seq<byte>): seq<byte> {
    b[..Pos(b, 0)]
  }

  function Joined(a: Option<seq<byte>>, b: Option<seq<byte>>): Option<seq<byte>> {
    if a.Some? && b.Some? then Some(a.value + b.value) else None
  }

  function Signed(w: int): int {
    if w >= WORD / 2 then w - WORD else w
  }

  function Truth(i: int): int {
    if i == 0 then 0 else 1
  }

  /** The case a switch takes, if any. */
  function Select(arms: Arms, tag: int): (r: Option<Schema>)
    ensures r.Some? ==> (arms decreases to r.value)
  {
    match arms
    case Case(t, body, more) => if t == tag then Some(body) else Select(more, tag)
    case Default(body) => Some(body)
    case NoDefault => None
  }

  function Length(v: Value): nat {
    match v
    case VCons(_, tail) => 1 + Length(tail)
    case _ => 0
  }

  // ---------------------------------------------------------------------------
  // Encoding
  // ---------------------------------------------------------------------------

  /** The discriminant as it is written; a switch on a boolean then tests the caller's own value. */
  function PutTag(disc: Disc, tag: int): Option<seq<byte>> {
    match disc
    case OnBool => Some(PutWord(Truth(tag)))
    case OnEnum => if -WORD / 2 <= tag < WORD / 2 then Some(PutWord(tag % WORD)) else None
  }

  function PutOpaque(b: seq<byte>): seq<byte> {
    b + Zeros(Pad(|b|))
  }

  /** The bytes themselves, then zeros, in all the least multiple of four that holds them. */
  lemma OpaqueBytes(b: seq<byte>)
    ensures var e := PutOpaque(b);
            && |b| <= |e| < |b| + 4 && |e| % 4 == 0 && e[..|b|] == b
            && forall i :: |b| <= i < |e| ==> e[i] == 0
  {}

  function Encode(s: Schema, v: Value): Option<seq<byte>>
    decreases s, 0, v
  {
    match (s, v)
    case (Void, VVoid) => Some([])
    case (Word, VInt(i)) => if 0 <= i < WORD then Some(PutWord(i)) else None
    case (Enum, VInt(i)) => PutTag(OnEnum, i)
    case (Bool, VInt(i)) => Some(PutWord(Truth(i)))
    case (Hyper, VInt(i)) => if 0 <= i < HYPER then Some(PutWord(i / WORD) + PutWord(i % WORD)) else None
    case (Opaque(n), VBytes(b)) => if |b| == n then Some(PutOpaque(b)) else None
    case (Bytes(max), VBytes(b)) =>
      if |b| <= max && |b| < WORD then Some(PutWord(|b|) + PutOpaque(b)) else None
    case (Str(max), VBytes(b)) =>
      var c := CString(b);
      var n := |c| % WORD;
      if n <= max then Some(PutWord(n) + PutOpaque(c[..n])) else None
    case (Then(a, b), VPair(x, y)) => Joined(Encode(a, x), Encode(b, y))
    case (Union(disc, arms), VUnion(tag, x)) =>
      var arm := Select(arms, tag);
      if arm.None? then None else Joined(PutTag(disc, tag), Encode(arm.value, x))
    case (List(e), _) => EncodeList(e, v)
    case (Array(e, max), _) =>
      var n := Length(v);
      if n <= max && n < WORD then Joined(Some(PutWord(n)), EncodeItems(e, v)) else None
    case _ => None
  }

  function EncodeList(e: Schema, v: Value): Option<seq<byte>>
    decreases e, 1, v
  {
    match v
    case VNil => Some(PutWord(0))
    case VCons(x, tail) => Joined(Joined(Some(PutWord(1)), Encode(e, x)), EncodeList(e, tail))
    case _ => None
  }

  function EncodeItems(e: Schema, v: Value): Option<seq<byte>>
    decreases e, 1, v
  {
    match v
    case VNil => Some([])
    case VCons(x, tail) => Joined(Encode(e, x), EncodeItems(e, tail))
    case _ => None
  }

  // ---------------------------------------------------------------------------
  // Decoding
  // ---------------------------------------------------------------------------

  function GetTag(disc: Disc, w: int): int {
    match disc
    case OnBool => Truth(w)
    case OnEnum => Signed(w)
  }

  /** n bytes and their padding; what the padding holds is not looked at. */
  function GetOpaque(n: nat, b: seq<byte>): (r: Decoded)
    ensures r.Done? ==> |r.rest| <= |b|
  {
    if |b| < n + Pad(n) then Fail else Done(VBytes(b[..n]), b[n + Pad(n)..])
  }

  function Decode(s: Schema, b: seq<byte>): (r: Decoded)
    ensures r.Done? ==> |r.rest| <= |b|
    decreases s, |b|, 0
  {
    match s
    case Void => Done(VVoid, b)
    case Word => if |b| < 4 then Fail else Done(VInt(GetWord(b)), b[4..])
    case Enum => if |b| < 4 then Fail else Done(VInt(Signed(GetWord(b))), b[4..])
    case Bool => if |b| < 4 then Fail else Done(VInt(Truth(GetWord(b))), b[4..])
    case Hyper => if |b| < 8 then Fail else Done(VInt(GetWord(b) * WORD + GetWord(b[4..])), b[8..])
    case Opaque(n) => GetOpaque(n, b)
    case Bytes(max) =>
      if |b| < 4 || GetWord(b) > max then Fail else GetOpaque(GetWord(b), b[4..])
    case Str(max) =>
      if |b| < 4 || GetWord(b) > max then Fail
      else
        var r := GetOpaque(GetWord(b), b[4..]);
        if r.Fail? then Fail else Done(VBytes(CString(r.v.bytes)), r.rest)
    case Then(a, c) =>
      var x := Decode(a, b);
      if x.Fail? then Fail
      else
        var y := Decode(c, x.rest);
        if y.Fail? then Fail else Done(VPair(x.v, y.v), y.rest)
    case Union(disc, arms) =>
      if |b| < 4 then Fail
      else
        var tag := GetTag(disc, GetWord(b));
        var arm := Select(arms, tag);
        if arm.None? then Fail
        else
          var x := Decode(arm.value, b[4..]);
          if x.Fail? then Fail else Done(VUnion(tag, x.v), x.rest)
    case List(e) => DecodeList(e, b)
    case Array(e, max) =>
      if |b| < 4 || GetWord(b) > max then Fail else DecodeItems(e, GetWord(b), b[4..])
  }

  function DecodeList(e: Schema, b: seq<byte>): (r: Decoded)
    ensures r.Done? ==> |r.rest| <= |b|
    decreases e, |b|, 1
  {
    if |b| < 4 then Fail
    else if GetWord(b) == 0 then Done(VNil, b[4..])
    else
      var x := Decode(e, b[4..]);
      if x.Fail? then Fail
      else
        var y := DecodeList(e, x.rest);
        if y.Fail? then Fail else Done(VCons(x.v, y.v), y.rest)
  }

  function DecodeItems(e: Schema, n: nat, b: seq<byte>): (r: Decoded)
    ensures r.Done? ==> |r.rest| <= |b|
    decreases e, |b|, n + 1
  {
    if n == 0 then Done(VNil, b)
    else
      var x := Decode(e, b);
      if x.Fail? then Fail
      else
        var y := DecodeItems(e, n - 1, x.rest);
        if y.Fail? then Fail else Done(VCons(x.v, y.v), y.rest)
  }

  // ---------------------------------------------------------------------------
  // Well-formed messages
  // ---------------------------------------------------------------------------

  predicate WellTagged(disc: Disc, tag: int) {
    match disc
    case OnBool => tag == 0 || tag == 1
    case OnEnum => -WORD / 2 <= tag < WORD / 2
  }

  /** Fields in range, booleans 0 or 1, strings without NUL, lengths within bounds, known tags. */
  predicate WellFormed(s: Schema, v: Value)
    decreases s, 0, v
  {
    match (s, v)
    case (Void, VVoid) => true
    case (Word, VInt(i)) => 0 <= i < WORD
    case (Enum, VInt(i)) => WellTagged(OnEnum, i)
    case (Bool, VInt(i)) => WellTagged(OnBool, i)
    case (Hyper, VInt(i)) => 0 <= i < HYPER
    case (Opaque(n), VBytes(b)) => |b| == n
    case (Bytes(max), VBytes(b)) => |b| <= max && |b| < WORD
    case (Str(max), VBytes(b)) => |b| <= max && |b| < WORD && 0 !in b
    case (Then(a, b), VPair(x, y)) => WellFormed(a, x) && WellFormed(b, y)
    case (Union(disc, arms), VUnion(tag, x)) =>
      var arm := Select(arms, tag);
      arm.Some? && WellTagged(disc, tag) && WellFormed(arm.value, x)
    case (List(e), _) => AllWellFormed(e, v)
    case (Array(e, max), _) => Length(v) <= max && Length(v) < WORD && AllWellFormed(e, v)
    case _ => false
  }

  predicate AllWellFormed(e: Schema, v: Value)
    decreases e, 1, v
  {
    match v
    case VNil => true
    case VCons(x, tail) => WellFormed(e, x) && AllWellFormed(e, tail)
    case _ => false
  }

  // ---------------------------------------------------------------------------
  // Round trip
  // ---------------------------------------------------------------------------

  lemma WordBack(w: int, t: seq<byte>)
    requires 0 <= w < WORD
    ensures |PutWord(w) + t| >= 4 && GetWord(PutWord(w) + t) == w && (PutWord(w) + t)[4..] == t
  {
    var b := PutWord(w) + t;
    assert b[..4] == PutWord(w);
    PutDigits(w);
    Digits(w);
    SameWord(b, PutWord(w));
  }

  lemma PutDigits(w: int)
    requires 0 <= w < WORD
    ensures var b := PutWord(w);
            && |b| == 4 && b[0] as int == w / 0x100_0000 && b[1] as int == w / 0x1_0000 % 0x100
            && b[2] as int == w / 0x100 % 0x100 && b[3] as int == w % 0x100
  {}

  lemma SameWord(b: seq<byte>, w: seq<byte>)
    requires |b| >= 4 && |w| == 4 && b[..4] == w
    ensures GetWord(b) == GetWord(w)
  {
    assert b[0] == b[..4][0] && b[1] == b[..4][1] && b[2] == b[..4][2] && b[3] == b[..4][3];
  }

  lemma OpaqueBack(b: seq<byte>, t: seq<byte>)
    ensures GetOpaque(|b|, PutOpaque(b) + t) == Done(VBytes(b), t)
  {
    var e := PutOpaque(b) + t;
    assert e[..|b|] == b;
    assert e[|b| + Pad(|b|)..] == t;
  }

  lemma CountedBack(b: seq<byte>, t: seq<byte>)
    requires |b| < WORD
    ensures var e := PutWord(|b|) + PutOpaque(b) + t;
            |e| >= 4 && GetWord(e) == |b| && GetOpaque(|b|, e[4..]) == Done(VBytes(b), t)
  {
    assert PutWord(|b|) + PutOpaque(b) + t == PutWord(|b|) + (PutOpaque(b) + t);
    WordBack(|b|, PutOpaque(b) + t);
    OpaqueBack(b, t);
  }

  lemma TagBack(disc: Disc, tag: int, t: seq<byte>)
    requires WellTagged(disc, tag)
    ensures PutTag(disc, tag).Some?
    ensures var e := PutTag(disc, tag).value + t;
            |e| >= 4 && GetTag(disc, GetWord(e)) == tag && e[4..] == t
  {
    var w := if disc.OnBool? then Truth(tag) else tag % WORD;
    WordBack(w, t);
  }

  lemma HyperBack(i: int, t: seq<byte>)
    requires 0 <= i < HYPER
    ensures Encode(Hyper, VInt(i)).Some?
    ensures Decode(Hyper, Encode(Hyper, VInt(i)).value + t) == Done(VInt(i), t)
  {
    var hi, lo := i / WORD, i % WORD;
    var e := Encode(Hyper, VInt(i)).value + t;
    assert e == PutWord(hi) + (PutWord(lo) + t);
    WordBack(hi, PutWord(lo) + t);
    WordBack(lo, t);
    assert e[8..] == e[4..][4..];
  }

  /** The padding is skipped whatever it holds, and a string ends at its first NUL. */
  lemma CountedRead(max: nat, b: seq<byte>, pad: seq<byte>, t: seq<byte>)
    requires |b| <= max && |b| < WORD && |pad| < 4 && (|b| + |pad|) % 4 == 0
    ensures var e := PutWord(|b|) + (b + pad + t);
            && Decode(Bytes(max), e) == Done(VBytes(b), t)
            && (0 !in b ==> Decode(Str(max), e) == Done(VBytes(b), t))
            && (forall i :: 0 <= i < |b| && b[i] == 0 && 0 !in b[..i] ==> Decode(Str(max), e) == Done(VBytes(b[..i]), t))
  {
    hide PutWord, GetWord, Pos;
    var body := b + pad + t;
    WordBack(|b|, body);
    assert |pad| == Pad(|b|);
    assert body[..|b|] == b && body[|b| + |pad|..] == t;
    if 0 !in b { NoNul(b); }
    forall i | 0 <= i < |b| && b[i] == 0 && 0 !in b[..i]
      ensures CString(b) == b[..i]
    {
      FirstPos(b, 0, i);
    }
  }

  lemma NoNul(b: seq<byte>)
    requires 0 !in b
    ensures CString(b) == b
  {}

  /** The schemas that are a single primitive call. */
  predicate IsLeaf(s: Schema) {
    !s.Then? && !s.Union? && !s.List? && !s.Array?
  }

  lemma LeafBack(s: Schema, v: Value, t: seq<byte>)
    requires IsLeaf(s) && WellFormed(s, v)
    ensures Encode(s, v).Some?
    ensures Decode(s, Encode(s, v).value + t) == Done(v, t)
  {
    hide Pos, PutWord, GetWord, PutOpaque, GetOpaque;
    match s
    case Void => assert [] + t == t;
    case Word => WordBack(v.i, t);
    case Enum => TagBack(OnEnum, v.i, t);
    case Bool => TagBack(OnBool, v.i, t);
    case Hyper => HyperBack(v.i, t);
    case Opaque(_) => OpaqueBack(v.bytes, t);
    case Bytes(_) => CountedBack(v.bytes, t);
    case Str(_) =>
      NoNul(v.bytes);
      assert v.bytes[..|v.bytes|] == v.bytes;
      CountedBack(v.bytes, t);
  }

  /** One step of the encoder and of the decoder, with the parts already handled. */
  ghost predicate Back(s: Schema, v: Value, t: seq<byte>) {
    Encode(s, v).Some? && Decode(s, Encode(s, v).value + t) == Done(v, t)
  }

  lemma EncodeThen(a: Schema, c: Schema, x: Value, y: Value)
    ensures Encode(Then(a, c), VPair(x, y)) == Joined(Encode(a, x), Encode(c, y))
  {}

  lemma DecodeThen(a: Schema, c: Schema, b: seq<byte>)
    ensures var x := Decode(a, b);
            Decode(Then(a, c), b) ==
            if x.Fail? || Decode(c, x.rest).Fail? then Fail
            else Done(VPair(x.v, Decode(c, x.rest).v), Decode(c, x.rest).rest)
  {
    hide GetWord, GetOpaque, Select, DecodeList, DecodeItems, CString;
  }

  lemma ThenBack(a: Schema, c: Schema, x: Value, y: Value, t: seq<byte>)
    requires Back(c, y, t) && Back(a, x, Encode(c, y).value + t)
    ensures Back(Then(a, c), VPair(x, y), t)
  {
    hide Encode, Decode;
    EncodeThen(a, c, x, y);
    DecodeThen(a, c, Encode(a, x).value + Encode(c, y).value + t);
    assert Encode(a, x).value + Encode(c, y).value + t == Encode(a, x).value + (Encode(c, y).value + t);
  }

  lemma UnionBack(disc: Disc, arms: Arms, tag: int, x: Value, t: seq<byte>)
    requires WellTagged(disc, tag) && Select(arms, tag).Some? && Back(Select(arms, tag).value, x, t)
    ensures Back(Union(disc, arms), VUnion(tag, x), t)
  {
    hide PutWord, GetWord, PutOpaque, GetOpaque, Select, CString, EncodeList, EncodeItems, DecodeList, DecodeItems;
    var e := Encode(Select(arms, tag).value, x).value;
    TagBack(disc, tag, e + t);
    assert PutTag(disc, tag).value + e + t == PutTag(disc, tag).value + (e + t);
  }

  lemma ArrayBack(e: Schema, max: nat, v: Value, t: seq<byte>)
    requires Length(v) <= max && Length(v) < WORD && EncodeItems(e, v).Some?
    requires DecodeItems(e, Length(v), EncodeItems(e, v).value + t) == Done(v, t)
    ensures Back(Array(e, max), v, t)
  {
    hide PutWord, GetWord, PutOpaque, GetOpaque, Select, CString, EncodeList, EncodeItems, DecodeList, DecodeItems, Length;
    var b := EncodeItems(e, v).value;
    WordBack(Length(v), b + t);
    assert PutWord(Length(v)) + b + t == PutWord(Length(v)) + (b + t);
  }

  lemma ListIsChain(e: Schema, v: Value, b: seq<byte>)
    ensures Encode(List(e), v) == EncodeList(e, v) && Decode(List(e), b) == DecodeList(e, b)
  {}

  /**
   Every well-formed value is encoded, and decoding its encoding in front of any bytes gives
   the value and exactly those bytes.
   */
  lemma {:induction false} RoundTrip(s: Schema, v: Value, t: seq<byte>)
    requires WellFormed(s, v)
    ensures Encode(s, v).Some?
    ensures Decode(s, Encode(s, v).value + t) == Done(v, t)
    decreases s, 0, v
  {
    hide Encode, Decode, EncodeList, DecodeList, EncodeItems, DecodeItems, Select, Length;
    match s
    case Then(a, c) =>
      RoundTrip(c, v.snd, t);
      RoundTrip(a, v.fst, Encode(c, v.snd).value + t);
      ThenBack(a, c, v.fst, v.snd, t);
    case Union(disc, arms) =>
      RoundTrip(Select(arms, v.tag).value, v.body, t);
      UnionBack(disc, arms, v.tag, v.body, t);
    case List(e) =>
      RoundTripList(e, v, t);
      ListIsChain(e, v, EncodeList(e, v).value + t);
    case Array(e, max) =>
      RoundTripItems(e, v, t);
      ArrayBack(e, max, v, t);
    case _ =>
      LeafBack(s, v, t);
  }

  lemma {:induction false} RoundTripList(e: Schema, v: Value, t: seq<byte>)
    requires AllWellFormed(e, v)
    ensures EncodeList(e, v).Some?
    ensures DecodeList(e, EncodeList(e, v).value + t) == Done(v, t)
    decreases e, 1, v
  {
    hide EncodeList, DecodeList, Encode, Decode, WellFormed;
    match v
    case VNil => NilBack(e, t);
    case VCons(x, tail) =>
      RoundTripList(e, tail, t);
      RoundTrip(e, x, EncodeList(e, tail).value + t);
      ConsBack(e, x, tail, t);
  }

  lemma NilBack(e: Schema, t: seq<byte>)
    ensures EncodeList(e, VNil).Some? && DecodeList(e, EncodeList(e, VNil).value + t) == Done(VNil, t)
  {
    hide PutWord, GetWord;
    WordBack(0, t);
  }

  lemma ConsBack(e: Schema, x: Value, tail: Value, t: seq<byte>)
    requires EncodeList(e, tail).Some? && DecodeList(e, EncodeList(e, tail).value + t) == Done(tail, t)
    requires Back(e, x, EncodeList(e, tail).value + t)
    ensures EncodeList(e, VCons(x, tail)).Some?
    ensures DecodeList(e, EncodeList(e, VCons(x, tail)).value + t) == Done(VCons(x, tail), t)
  {
    hide PutWord, GetWord, Encode, Decode;
    var c, d := EncodeList(e, tail).value, Encode(e, x).value;
    WordBack(1, d + (c + t));
    assert PutWord(1) + d + c + t == PutWord(1) + (d + (c + t));
  }

  lemma {:induction false} RoundTripItems(e: Schema, v: Value, t: seq<byte>)
    requires AllWellFormed(e, v)
    ensures EncodeItems(e, v).Some?
    ensures DecodeItems(e, Length(v), EncodeItems(e, v).value + t) == Done(v, t)
    decreases e, 1, v
  {
    hide PutWord, GetWord, Encode, Decode, WellFormed;
    match v
    case VNil => assert [] + t == t;
    case VCons(x, tail) =>
      RoundTripItems(e, tail, t);
      var c := EncodeItems(e, tail).value;
      RoundTrip(e, x, c + t);
      assert Encode(e, x).value + c + t == Encode(e, x).value + (c + t);
  }

  // ---------------------------------------------------------------------------
  // What is decoded is well formed
  // ---------------------------------------------------------------------------

  lemma CStringIsOne(b: seq<byte>)
    ensures 0 !in CString(b) && |CString(b)| <= |b|
  {}

  ghost predicate Sound(s: Schema, b: seq<byte>) {
    var r := Decode(s, b);
    r.Done? ==> WellFormed(s, r.v) && (|b| - |r.rest|) % 4 == 0
  }

  lemma LeafSound(s: Schema, b: seq<byte>)
    requires IsLeaf(s)
    ensures Sound(s, b)
  {
    hide GetWord, CString, GetOpaque;
    match s
    case Opaque(n) => OpaqueSound(n, b);
    case Bytes(max) => if |b| >= 4 { OpaqueSound(GetWord(b), b[4..]); }
    case Str(max) =>
      if |b| >= 4 {
        OpaqueSound(GetWord(b), b[4..]);
        var r := GetOpaque(GetWord(b), b[4..]);
        if r.Done? { CStringIsOne(r.v.bytes); }
      }
    case _ =>
  }

  lemma OpaqueSound(n: nat, b: seq<byte>)
    ensures var r := GetOpaque(n, b);
            r.Done? ==> r.v.VBytes? && |r.v.bytes| == n && (|b| - |r.rest|) % 4 == 0
  {}

  lemma ThenSound(a: Schema, c: Schema, b: seq<byte>)
    requires Sound(a, b) && (Decode(a, b).Done? ==> Sound(c, Decode(a, b).rest))
    ensures Sound(Then(a, c), b)
  {
    hide Decode, WellFormed;
    DecodeThen(a, c, b);
    if Decode(Then(a, c), b).Done? { WellFormedThen(a, c, Decode(a, b).v, Decode(c, Decode(a, b).rest).v); }
  }

  lemma WellFormedThen(a: Schema, c: Schema, x: Value, y: Value)
    ensures WellFormed(Then(a, c), VPair(x, y)) <==> WellFormed(a, x) && WellFormed(c, y)
  {}

  lemma UnionSound(disc: Disc, arms: Arms, b: seq<byte>)
    requires |b| >= 4
    requires var arm := Select(arms, GetTag(disc, GetWord(b))); arm.Some? ==> Sound(arm.value, b[4..])
    ensures Sound(Union(disc, arms), b)
  {
    hide GetWord, GetOpaque, Select, CString, DecodeList, DecodeItems, AllWellFormed, Length;
  }

  lemma ArraySound(e: Schema, max: nat, b: seq<byte>)
    requires |b| >= 4
    requires var r := DecodeItems(e, GetWord(b), b[4..]);
             r.Done? ==> AllWellFormed(e, r.v) && Length(r.v) == GetWord(b) && (|b[4..]| - |r.rest|) % 4 == 0
    ensures Sound(Array(e, max), b)
  {
    hide GetWord, GetOpaque, Select, CString, DecodeList, DecodeItems, AllWellFormed, Length;
  }

  lemma ListSound(e: Schema, b: seq<byte>)
    requires var r := DecodeList(e, b); r.Done? ==> AllWellFormed(e, r.v) && (|b| - |r.rest|) % 4 == 0
    ensures Sound(List(e), b)
  {
    hide GetWord, GetOpaque, Select, CString, DecodeList, DecodeItems, AllWellFormed, Length;
  }

  /** What a decoder accepts is a well-formed value, it reads whole words, and only what is there. */
  lemma {:induction false} DecodedIsWellFormed(s: Schema, b: seq<byte>)
    ensures Decode(s, b).Done? ==> WellFormed(s, Decode(s, b).v) && (|b| - |Decode(s, b).rest|) % 4 == 0
    decreases s, |b|, 0
  {
    hide Decode, DecodeList, DecodeItems, WellFormed, AllWellFormed, Select, GetWord, Length;
    match s
    case Then(a, c) =>
      DecodedIsWellFormed(a, b);
      if Decode(a, b).Done? { DecodedIsWellFormed(c, Decode(a, b).rest); }
      ThenSound(a, c, b);
    case Union(disc, arms) =>
      if |b| >= 4 {
        var arm := Select(arms, GetTag(disc, GetWord(b)));
        if arm.Some? { DecodedIsWellFormed(arm.value, b[4..]); }
        UnionSound(disc, arms, b);
      } else {
        TooShort(s, b);
      }
    case List(e) =>
      DecodedListIsWellFormed(e, b);
      ListSound(e, b);
    case Array(e, max) =>
      if |b| >= 4 {
        DecodedItemsAreWellFormed(e, GetWord(b), b[4..]);
        ArraySound(e, max, b);
      } else {
        TooShort(s, b);
      }
    case _ =>
      LeafSound(s, b);
  }

  lemma TooShort(s: Schema, b: seq<byte>)
    requires |b| < 4 && (s.Union? || s.Array?)
    ensures Decode(s, b).Fail?
  {}

  lemma {:induction false} DecodedListIsWellFormed(e: Schema, b: seq<byte>)
    ensures var r := DecodeList(e, b); r.Done? ==> AllWellFormed(e, r.v) && (|b| - |r.rest|) % 4 == 0
    decreases e, |b|, 1
  {
    hide GetWord, Decode, WellFormed;
    if |b| >= 4 && GetWord(b) != 0 {
      DecodedIsWellFormed(e, b[4..]);
      var x := Decode(e, b[4..]);
      if x.Done? {
        DecodedListIsWellFormed(e, x.rest);
        assert (|b| - 4 - |x.rest|) % 4 == 0;
      }
    }
  }

  lemma {:induction false} DecodedItemsAreWellFormed(e: Schema, n: nat, b: seq<byte>)
    ensures var r := DecodeItems(e, n, b);
            r.Done? ==> AllWellFormed(e, r.v) && Length(r.v) == n && (|b| - |r.rest|) % 4 == 0
    decreases e, |b|, n + 1
  {
    hide GetWord, Decode, WellFormed;
    if n > 0 {
      DecodedIsWellFormed(e, b);
      if Decode(e, b).Done? { DecodedItemsAreWellFormed(e, n - 1, Decode(e, b).rest); }
    }
  }

  /** Exactly the well-formed values come back from their encoding. */
  lemma RoundTripIffWellFormed(s: Schema, v: Value, t: seq<byte>)
    ensures Encode(s, v).Some? && Decode(s, Encode(s, v).value + t) == Done(v, t) <==> WellFormed(s, v)
  {
    hide *;
    if WellFormed(s, v) {
      RoundTrip(s, v, t);
    } else if Encode(s, v).Some? && Decode(s, Encode(s, v).value + t) == Done(v, t) {
      DecodedIsWellFormed(s, Encode(s, v).value + t);
    }
  }

  /** Decoding, encoding and decoding again is decoding once: the encoder writes a canonical form. */
  lemma DecodeEncodeDecode(s: Schema, b: seq<byte>, t: seq<byte>)
    requires Decode(s, b).Done?
    ensures Encode(s, Decode(s, b).v).Some?
    ensures Decode(s, Encode(s, Decode(s, b).v).value + t) == Done(Decode(s, b).v, t)
  {
    hide *;
    DecodedIsWellFormed(s, b);
    RoundTrip(s, Decode(s, b).v, t);
  }

  /** Encodings of two values of one schema can be told apart, whatever follows them. */
  lemma EncodingIsPrefixFree(s: Schema, v: Value, t: seq<byte>, w: Value, u: seq<byte>)
    requires WellFormed(s, v) && WellFormed(s, w)
    requires Encode(s, v).Some? && Encode(s, w).Some? && Encode(s, v).value + t == Encode(s, w).value + u
    ensures v == w && t == u
  {
    hide *;
    RoundTrip(s, v, t);
    RoundTrip(s, w, u);
  }

  // ---------------------------------------------------------------------------
  // Sizes
  // ---------------------------------------------------------------------------

  /** Every encoding, of any value the encoder takes, is a whole number of words. */
  lemma {:induction false} EncodedInWords(s: Schema, v: Value)
    ensures Encode(s, v).Some? ==> |Encode(s, v).value| % 4 == 0
    decreases s, 0, v
  {
    hide Select, Encode, EncodeList, EncodeItems;
    match (s, v)
    case (Then(a, c), VPair(x, y)) =>
      EncodedInWords(a, x);
      EncodedInWords(c, y);
      EncodeThen(a, c, x, y);
    case (Union(disc, arms), VUnion(tag, x)) =>
      var arm := Select(arms, tag);
      if arm.Some? { EncodedInWords(arm.value, x); }
      EncodeUnion(disc, arms, tag, x);
    case (List(e), _) =>
      ChainsInWords(e, v);
      ListIsChain(e, v, []);
    case (Array(e, max), _) =>
      ChainsInWords(e, v);
      EncodeArray(e, max, v);
    case _ =>
      LeafInWords(s, v);
  }

  lemma EncodeUnion(disc: Disc, arms: Arms, tag: int, x: Value)
    ensures Encode(Union(disc, arms), VUnion(tag, x)) ==
            var arm := Select(arms, tag);
            if arm.None? then None else Joined(PutTag(disc, tag), Encode(arm.value, x))
  {}

  lemma EncodeArray(e: Schema, max: nat, v: Value)
    ensures Encode(Array(e, max), v) ==
            var n := Length(v);
            if n <= max && n < WORD then Joined(Some(PutWord(n)), EncodeItems(e, v)) else None
  {}

  lemma LeafInWords(s: Schema, v: Value)
    requires (s.Then? ==> !v.VPair?) && (s.Union? ==> !v.VUnion?) && !s.List? && !s.Array?
    ensures Encode(s, v).Some? ==> |Encode(s, v).value| % 4 == 0
  {
    hide CString, PutWord, PutOpaque;
    match (s, v)
    case (Word, VInt(i)) => WordSize(i);
    case (Enum, VInt(i)) => WordSize(i % WORD);
    case (Bool, VInt(i)) => WordSize(Truth(i));
    case (Hyper, VInt(i)) =>
      if 0 <= i < HYPER {
        WordSize(i / WORD);
        WordSize(i % WORD);
      }
    case (Opaque(_), VBytes(b)) => OpaqueInWords(b);
    case (Bytes(_), VBytes(b)) =>
      WordSize(|b|);
      OpaqueInWords(b);
    case (Str(_), VBytes(b)) =>
      var n := |CString(b)| % WORD;
      WordSize(n);
      OpaqueInWords(CString(b)[..n]);
    case _ =>
  }

  lemma WordSize(w: int)
    ensures 0 <= w < WORD ==> |PutWord(w)| == 4
  {}

  lemma OpaqueInWords(b: seq<byte>)
    ensures |PutOpaque(b)| % 4 == 0
  {}

  lemma {:induction false} ChainsInWords(e: Schema, v: Value)
    ensures EncodeList(e, v).Some? ==> |EncodeList(e, v).value| % 4 == 0
    ensures EncodeItems(e, v).Some? ==> |EncodeItems(e, v).value| % 4 == 0
    decreases e, 1, v
  {
    hide Encode, EncodeList, EncodeItems, PutWord, Joined;
    match v
    case VCons(x, tail) =>
      EncodedInWords(e, x);
      ChainsInWords(e, tail);
      ConsChain(e, x, tail);
      WordSize(1);
      InWords(Some(PutWord(1)), Encode(e, x));
      InWords(Joined(Some(PutWord(1)), Encode(e, x)), EncodeList(e, tail));
      InWords(Encode(e, x), EncodeItems(e, tail));
    case _ =>
      NoChain(e, v);
      WordSize(0);
  }

  lemma InWords(a: Option<seq<byte>>, b: Option<seq<byte>>)
    requires (a.Some? ==> |a.value| % 4 == 0) && (b.Some? ==> |b.value| % 4 == 0)
    ensures Joined(a, b).Some? ==> |Joined(a, b).value| % 4 == 0
  {}

  lemma ConsChain(e: Schema, x: Value, tail: Value)
    ensures EncodeList(e, VCons(x, tail)) == Joined(Joined(Some(PutWord(1)), Encode(e, x)), EncodeList(e, tail))
    ensures EncodeItems(e, VCons(x, tail)) == Joined(Encode(e, x), EncodeItems(e, tail))
  {
    hide Encode, PutWord;
  }

  lemma NoChain(e: Schema, v: Value)
    requires !v.VCons?
    ensures EncodeList(e, v) == if v.VNil? then Some(PutWord(0)) else None
    ensures EncodeItems(e, v) == if v.VNil? then Some([]) else None
  {
    hide Encode, PutWord;
  }

  /** The bytes a decode of s takes at least. */
  function MinSize(s: Schema): nat {
    match s
    case Void => 0
    case Hyper => 8
    case Opaque(n) => n + Pad(n)
    case Then(a, c) => MinSize(a) + MinSize(c)
    case _ => 4
  }

  lemma {:induction false} DecodeTakesMinSize(s: Schema, b: seq<byte>)
    ensures Decode(s, b).Done? ==> |b| - |Decode(s, b).rest| >= MinSize(s)
    decreases s
  {
    hide GetWord, Select, CString, DecodeItems;
    match s
    case Then(a, c) =>
      DecodeThen(a, c, b);
      DecodeTakesMinSize(a, b);
      if Decode(a, b).Done? { DecodeTakesMinSize(c, Decode(a, b).rest); }
    case _ =>
  }

  /** A chain of n entries took the link of each, the entries, and the end mark. */
  lemma {:induction false} ListTakesMinSize(e: Schema, b: seq<byte>)
    ensures var r := DecodeList(e, b);
            r.Done? ==> |b| - |r.rest| >= Length(r.v) * (4 + MinSize(e)) + 4
    decreases |b|
  {
    hide GetWord, Decode, MinSize;
    if |b| >= 4 && GetWord(b) != 0 {
      var x := Decode(e, b[4..]);
      DecodeTakesMinSize(e, b[4..]);
      if x.Done? {
        ListTakesMinSize(e, x.rest);
        var y := DecodeList(e, x.rest);
        assert y.Done? ==> (Length(y.v) + 1) * (4 + MinSize(e)) == Length(y.v) * (4 + MinSize(e)) + 4 + MinSize(e);
      }
    }
  }

  // ---------------------------------------------------------------------------
  // A decoder depends on nothing but the bytes it takes
  // ---------------------------------------------------------------------------

  /** b is what was taken and the rest, and what was taken gives the same value before any bytes. */
  ghost predicate Exact(s: Schema, b: seq<byte>, t: seq<byte>) {
    var r := Decode(s, b);
    r.Done? ==>
      var k := |b| - |r.rest|;
      b[k..] == r.rest && Decode(s, b[..k] + t) == Done(r.v, t)
  }

  lemma Split(b: seq<byte>, j: nat, k: nat, t: seq<byte>)
    requires j <= k <= |b|
    ensures b[..k] + t == b[..j] + (b[j..][..k - j] + t)
    ensures b[j..][k - j..] == b[k..]
  {}

  lemma WordAhead(b: seq<byte>, k: nat, t: seq<byte>)
    requires 4 <= k <= |b|
    ensures |b[..k] + t| >= 4 && GetWord(b[..k] + t) == GetWord(b)
    ensures (b[..k] + t)[4..] == b[4..][..k - 4] + t && b[4..][k - 4..] == b[k..]
  {}

  lemma OpaqueExact(n: nat, b: seq<byte>, t: seq<byte>)
    ensures var r := GetOpaque(n, b);
            r.Done? ==>
              var k := |b| - |r.rest|;
              b[k..] == r.rest && GetOpaque(n, b[..k] + t) == Done(r.v, t)
  {
    var k := n + Pad(n);
    if |b| >= k {
      var e := b[..k] + t;
      assert e[..n] == b[..n] && e[k..] == t;
    }
  }

  lemma LeafExact(s: Schema, b: seq<byte>, t: seq<byte>)
    requires IsLeaf(s)
    ensures Exact(s, b, t)
  {
    hide GetWord, CString, GetOpaque;
    var r := Decode(s, b);
    if r.Done? {
      var k := |b| - |r.rest|;
      match s
      case Void => assert b[..0] + t == t;
      case Opaque(n) => OpaqueExact(n, b, t);
      case Hyper =>
        WordAhead(b, 8, t);
        WordAhead(b[4..], 4, t);
        assert (b[..8] + t)[8..] == t;
      case Bytes(_) =>
        OpaqueExact(GetWord(b), b[4..], t);
        WordAhead(b, k, t);
      case Str(_) =>
        OpaqueExact(GetWord(b), b[4..], t);
        WordAhead(b, k, t);
      case Word => WordAhead(b, 4, t);
      case Enum => WordAhead(b, 4, t);
      case Bool => WordAhead(b, 4, t);
    }
  }

  lemma ThenExact(a: Schema, c: Schema, b: seq<byte>, t: seq<byte>)
    requires Decode(Then(a, c), b).Done? && Decode(a, b).Done?
    requires var x := Decode(a, b);
             && Exact(c, x.rest, t)
             && (Decode(c, x.rest).Done? ==> Exact(a, b, x.rest[..|x.rest| - |Decode(c, x.rest).rest|] + t))
    ensures Exact(Then(a, c), b, t)
  {
    hide Decode;
    DecodeThen(a, c, b);
    var x := Decode(a, b);
    var y := Decode(c, x.rest);
    var j, k := |b| - |x.rest|, |b| - |y.rest|;
    Split(b, j, k, t);
    DecodeThen(a, c, b[..k] + t);
  }

  lemma DecodeUnion(disc: Disc, arms: Arms, b: seq<byte>)
    ensures Decode(Union(disc, arms), b) ==
            if |b| < 4 then Fail
            else
              var tag := GetTag(disc, GetWord(b));
              var arm := Select(arms, tag);
              if arm.None? then Fail
              else
                var x := Decode(arm.value, b[4..]);
                if x.Fail? then Fail else Done(VUnion(tag, x.v), x.rest)
  {}

  lemma DecodeArray(e: Schema, max: nat, b: seq<byte>)
    ensures Decode(Array(e, max), b) ==
            if |b| < 4 || GetWord(b) > max then Fail else DecodeItems(e, GetWord(b), b[4..])
  {}

  /** Whatever follows, a decoder reads the same bytes to the same value. */
  lemma {:induction false} DecodeIsExact(s: Schema, b: seq<byte>, t: seq<byte>)
    ensures Exact(s, b, t)
    decreases s, |b|, 0
  {
    hide Decode, DecodeList, DecodeItems, Select, GetWord;
    if Decode(s, b).Done? {
      var k := |b| - |Decode(s, b).rest|;
      match s
      case Then(a, c) =>
        DecodeThen(a, c, b);
        var x := Decode(a, b);
        DecodeIsExact(c, x.rest, t);
        DecodeIsExact(a, b, x.rest[..|x.rest| - |Decode(c, x.rest).rest|] + t);
        ThenExact(a, c, b, t);
      case Union(disc, arms) =>
        DecodeUnion(disc, arms, b);
        DecodeIsExact(Select(arms, GetTag(disc, GetWord(b))).value, b[4..], t);
        WordAhead(b, k, t);
        DecodeUnion(disc, arms, b[..k] + t);
      case List(e) =>
        ListIsChain(e, VNil, b);
        ListIsExact(e, b, t);
        ListIsChain(e, VNil, b[..k] + t);
      case Array(e, max) =>
        DecodeArray(e, max, b);
        ItemsAreExact(e, GetWord(b), b[4..], t);
        WordAhead(b, k, t);
        DecodeArray(e, max, b[..k] + t);
      case _ =>
        LeafExact(s, b, t);
    }
  }

  lemma DecodeChain(e: Schema, b: seq<byte>)
    ensures DecodeList(e, b) ==
            if |b| < 4 then Fail
            else if GetWord(b) == 0 then Done(VNil, b[4..])
            else
              var x := Decode(e, b[4..]);
              if x.Fail? then Fail
              else
                var y := DecodeList(e, x.rest);
                if y.Fail? then Fail else Done(VCons(x.v, y.v), y.rest)
  {}

  lemma {:induction false} ListIsExact(e: Schema, b: seq<byte>, t: seq<byte>)
    requires DecodeList(e, b).Done?
    ensures var r := DecodeList(e, b);
            var k := |b| - |r.rest|;
            b[k..] == r.rest && DecodeList(e, b[..k] + t) == Done(r.v, t)
    decreases e, |b|, 1
  {
    hide Decode, GetWord, DecodeList;
    DecodeChain(e, b);
    var r := DecodeList(e, b);
    var k := |b| - |r.rest|;
    WordAhead(b, k, t);
    DecodeChain(e, b[..k] + t);
    if GetWord(b) != 0 {
      var x := Decode(e, b[4..]);
      var y := DecodeList(e, x.rest);
      ListIsExact(e, x.rest, t);
      DecodeIsExact(e, b[4..], x.rest[..|x.rest| - |y.rest|] + t);
      ConsExact(e, b, t);
    } else {
      assert b[4..][..k - 4] + t == t;
    }
  }

  lemma ConsExact(e: Schema, b: seq<byte>, t: seq<byte>)
    requires |b| >= 4 && GetWord(b) != 0 && Decode(e, b[4..]).Done? && DecodeList(e, Decode(e, b[4..]).rest).Done?
    requires var x := Decode(e, b[4..]);
             var y := DecodeList(e, x.rest);
             var m := |x.rest| - |y.rest|;
             && x.rest[m..] == y.rest && DecodeList(e, x.rest[..m] + t) == Done(y.v, t)
             && Exact(e, b[4..], x.rest[..m] + t)
    ensures var r := DecodeList(e, b);
            && r.Done?
            && var k := |b| - |r.rest|;
               b[k..] == r.rest && DecodeList(e, b[..k] + t) == Done(r.v, t)
  {
    hide Decode, GetWord, DecodeList, Exact;
    DecodeChain(e, b);
    var c := b[4..];
    var x := Decode(e, c);
    var y := DecodeList(e, x.rest);
    var k, j := |b| - |y.rest|, |c| - |x.rest|;
    var u := x.rest[..|x.rest| - |y.rest|] + t;
    ExactParts(e, c, u);
    Split(c, j, k - 4, t);
    assert c[..k - 4] + t == c[..j] + u;
    WordAhead(b, k, t);
    ConsRead(e, b[..k] + t, x.v, y.v, u, t);
  }

  lemma ExactParts(e: Schema, c: seq<byte>, u: seq<byte>)
    requires Exact(e, c, u) && Decode(e, c).Done?
    ensures var x := Decode(e, c);
            var j := |c| - |x.rest|;
            c[j..] == x.rest && Decode(e, c[..j] + u) == Done(x.v, u)
  {
    hide Decode;
  }

  lemma ConsRead(e: Schema, b: seq<byte>, x: Value, y: Value, u: seq<byte>, t: seq<byte>)
    requires |b| >= 4 && GetWord(b) != 0 && Decode(e, b[4..]) == Done(x, u) && DecodeList(e, u) == Done(y, t)
    ensures DecodeList(e, b) == Done(VCons(x, y), t)
  {
    hide Decode, GetWord, DecodeList;
    DecodeChain(e, b);
  }

  lemma DecodeItemsStep(e: Schema, n: nat, b: seq<byte>)
    ensures DecodeItems(e, n, b) ==
            if n == 0 then Done(VNil, b)
            else
              var x := Decode(e, b);
              if x.Fail? then Fail
              else
                var y := DecodeItems(e, n - 1, x.rest);
                if y.Fail? then Fail else Done(VCons(x.v, y.v), y.rest)
  {
    hide Decode;
  }

  lemma {:induction false} ItemsAreExact(e: Schema, n: nat, b: seq<byte>, t: seq<byte>)
    requires DecodeItems(e, n, b).Done?
    ensures var r := DecodeItems(e, n, b);
            var k := |b| - |r.rest|;
            b[k..] == r.rest && DecodeItems(e, n, b[..k] + t) == Done(r.v, t)
    decreases e, |b|, n + 1
  {
    hide Decode, DecodeItems;
    DecodeItemsStep(e, n, b);
    var r := DecodeItems(e, n, b);
    var k := |b| - |r.rest|;
    DecodeItemsStep(e, n, b[..k] + t);
    if n > 0 {
      var x := Decode(e, b);
      var y := DecodeItems(e, n - 1, x.rest);
      ItemsAreExact(e, n - 1, x.rest, t);
      DecodeIsExact(e, b, x.rest[..|x.rest| - |y.rest|] + t);
      Split(b, |b| - |x.rest|, k, t);
    } else {
      assert b[..0] + t == t;
    }
  }
}
