/**
 Record marking from the sender's side (section 10 of RFC 1831): each fragment after a word that
 holds its size, plus 2^31 for the last fragment of a record.
 */
module RecordWriter {
  import opened Base
  import opened RecordMarking
  import Xdr

  predicate FitsFragment(b: Bytes) {
    |b| < 0x8000_0000
  }

  function Fragment(body: Bytes, last: bool): Bytes
    requires FitsFragment(body)
  {
    Xdr.PutWord(|body| + (if last then 0x8000_0000 else 0)) + body
  }

  function OnWire(frags: seq<Bytes>): Bytes
    requires frags != [] && forall f :: f in frags ==> FitsFragment(f)
  {
    if |frags| == 1 then Fragment(frags[0], true) else Fragment(frags[0], false) + OnWire(frags[1..])
  }

  predicate FitsRecord(frags: seq<Bytes>) {
    frags != [] && forall f :: f in frags ==> FitsFragment(f)
  }

  /** Records, each given as its fragments, one after another. */
  function Wire(records: seq<seq<Bytes>>): Bytes
    requires forall r :: r in records ==> FitsRecord(r)
  {
    if records == [] then []
    else
      assert FitsRecord(records[0]);
      OnWire(records[0]) + Wire(records[1..])
  }

  /** What the fragments of each record add up to. */
  function Whole(records: seq<seq<Bytes>>): seq<Bytes> {
    seq(|records|, i requires 0 <= i < |records| => Concat(records[i]))
  }

  lemma MarkerRead(body: Bytes, last: bool)
    requires FitsFragment(body)
    ensures var m := Xdr.PutWord(|body| + (if last then 0x8000_0000 else 0));
            |m| == MARKER && FragSize(m) == |body| && LastFrag(m) == last
  {
    hide Xdr.PutWord, GetWord;
    var w := |body| + (if last then 0x8000_0000 else 0);
    Xdr.WordBack(w, []);
    Xdr.WordSize(w);
    assert Xdr.PutWord(w) + [] == Xdr.PutWord(w);
  }

  lemma FragmentRead(body: Bytes, last: bool, rest: Bytes, acc: Bytes)
    requires FitsFragment(body)
    ensures Records(Fragment(body, last) + rest, acc) ==
            if last then [acc + body] + Records(rest, []) else Records(rest, acc + body)
  {
    hide Records, Xdr.PutWord;
    MarkerRead(body, last);
    RecordsOfOne(Xdr.PutWord(|body| + (if last then 0x8000_0000 else 0)), body, rest, acc);
  }

  lemma {:induction false} RecordRead(frags: seq<Bytes>, rest: Bytes, acc: Bytes)
    requires FitsRecord(frags)
    ensures Records(OnWire(frags) + rest, acc) == [acc + Concat(frags)] + Records(rest, [])
    decreases |frags|
  {
    hide Records, Fragment;
    if |frags| == 1 {
      FragmentRead(frags[0], true, rest, acc);
      assert frags[1..] == [] && frags[0] + [] == frags[0];
    } else {
      var more := OnWire(frags[1..]);
      assert Fragment(frags[0], false) + more + rest == Fragment(frags[0], false) + (more + rest);
      FragmentRead(frags[0], false, more + rest, acc);
      RecordRead(frags[1..], rest, acc + frags[0]);
      assert acc + frags[0] + Concat(frags[1..]) == acc + Concat(frags);
    }
  }

  /** The parser gives back the records that were written, however they were divided into fragments. */
  lemma {:induction false} RecordsOfWire(records: seq<seq<Bytes>>)
    requires forall r :: r in records ==> FitsRecord(r)
    ensures Records(Wire(records), []) == Whole(records)
    decreases |records|
  {
    hide OnWire;
    if records == [] {
      RecordsOfNone();
    } else {
      assert FitsRecord(records[0]);
      hide Records;
      RecordRead(records[0], Wire(records[1..]), []);
      RecordsOfWire(records[1..]);
      assert [] + Concat(records[0]) == Concat(records[0]);
      assert Whole(records) == [Concat(records[0])] + Whole(records[1..]);
    }
  }

  /** So does the intended receiver, however the stream is cut into reads. */
  lemma WrittenRecordsArrive(stale: Bytes, records: seq<seq<Bytes>>, chunks: seq<Bytes>)
    requires |stale| == MARKER && (forall r :: r in records ==> FitsRecord(r)) && Concat(chunks) == Wire(records)
    ensures var (s, out) := FeedAll(Intended, Init(stale), chunks);
            Messages(out) + Withheld(s) == Whole(records) && |Withheld(s)| <= 1
  {
    hide FeedAll, Wire, Whole, Records, Init, Messages;
    IntendedYieldsRecords(stale, chunks);
    RecordsOfWire(records);
  }
}
