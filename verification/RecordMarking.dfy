/**
 The receive side of src/clnt_tcp_nb.c: fragments of RPC records (section 10 of RFC 1831) put
 back together from reads of any size.

 Records is the one-shot parser of a whole stream. Pass is one pass of the loop of
 update_frag_state, in two variants. AsWritten follows the code. Intended differs in the two
 places where the code does not do what its comments say: a marker split between reads is
 continued where it left off (the code copies every piece to the start of the marker buffer),
 and the record size is kept until the last fragment (the code resets it after every one).
 */
module RecordMarking {
  import opened Base

  const MARKER := 4

  // ---------------------------------------------------------------------------
  // The stream format
  // ---------------------------------------------------------------------------

  /** The low 31 bits of a marker: the fragment size. */
  function FragSize(m: Bytes): nat
    requires |m| == MARKER
  {
    GetWord(m) % 0x8000_0000
  }

  /** The top bit of a marker: the last fragment of its record. */
  predicate LastFrag(m: Bytes)
    requires |m| == MARKER
  {
    GetWord(m) >= 0x8000_0000
  }

  /** The complete records of a stream, where acc holds the earlier fragments of the first. */
  function Records(stream: Bytes, acc: Bytes): seq<Bytes>
    decreases |stream|
  {
    if |stream| < MARKER then []
    else
      var n := FragSize(stream[..MARKER]);
      if |stream| < MARKER + n then []
      else
        var whole := acc + stream[MARKER..MARKER + n];
        var rest := stream[MARKER + n..];
        if LastFrag(stream[..MARKER]) then [whole] + Records(rest, []) else Records(rest, whole)
  }

  // ---------------------------------------------------------------------------
  // The machine
  // ---------------------------------------------------------------------------

  datatype Variant = AsWritten | Intended

  /** What call_user_cb gets: the bytes handed up, and whether collating wrote past their buffer. */
  datatype Delivery = Delivery(msg: Bytes, overrun: bool)

  datatype State = State(
    frags: seq<Bytes>,      // complete fragments of the current record
    recordSize: nat,
    remaining: int,         // bytes the current fragment still needs, -1 while a marker is read
    frag: Bytes,            // what the current fragment has so far
    fragSize: nat,
    markerRemaining: nat,   // bytes the marker still needs
    marker: Bytes,          // the four bytes of the marker buffer
    last: bool)

  /** Either a marker is being read, or a fragment of the size its marker gave. */
  predicate WF(s: State) {
    && |s.marker| == MARKER
    && if s.remaining < 0 then
         s.remaining == -1 && 1 <= s.markerRemaining <= MARKER
       else
         && s.markerRemaining == 0
         && |s.frag| + s.remaining == s.fragSize == FragSize(s.marker) && s.last == LastFrag(s.marker)
  }

  /** A fresh handle: the marker buffer is not initialised. */
  function Init(stale: Bytes): (s: State)
    requires |stale| == MARKER
    ensures WF(s)
  {
    State([], 0, -1, [], 0, MARKER, stale, false)
  }

  function Min(a: nat, b: nat): nat {
    if a < b then a else b
  }

  /** Copy what the buffer has for the current fragment; returns how much was used. */
  function Copy(s: State, buf: Bytes): (State, nat) {
    if s.remaining > 0 then
      var n := Min(|buf|, s.remaining);
      (s.(frag := s.frag + buf[..n], remaining := s.remaining - n), n)
    else (s, 0)
  }

  /** update_record_state: file the fragment; after the last one, collate and hand the record up. */
  function Finish(v: Variant, s: State): (State, seq<Delivery>) {
    var frags := s.frags + [s.frag];
    var size := s.recordSize + s.fragSize;
    var whole := Concat(frags);
    var next := s.(markerRemaining := MARKER, remaining := -1);
    if s.last then
      (next.(frags := [], recordSize := 0), [Delivery(whole[..Min(size, |whole|)], |whole| > size)])
    else
      (next.(frags := frags, recordSize := if v == Intended then size else 0), [])
  }

  /** memcpy into the marker buffer. */
  function Overlay(m: Bytes, at: nat, piece: Bytes): (r: Bytes)
    requires at + |piece| <= |m|
    ensures |r| == |m|
  {
    m[..at] + piece + m[at + |piece|..]
  }

  /** update_new_frag_state: take marker bytes, and set up the fragment once all four are there. */
  function ReadMarker(v: Variant, s: State, buf: Bytes): (State, nat)
    requires |s.marker| == MARKER && s.markerRemaining <= MARKER
  {
    var n := Min(|buf|, s.markerRemaining);
    var at := if v == Intended then MARKER - s.markerRemaining else 0;
    var m := Overlay(s.marker, at, buf[..n]);
    var s' := s.(marker := m, markerRemaining := s.markerRemaining - n);
    if s'.markerRemaining > 0 then (s', n)
    else (s'.(fragSize := FragSize(m), last := LastFrag(m), remaining := FragSize(m), frag := []), n)
  }

  /** The fragment is complete: the test in the middle of the loop. */
  predicate Complete(s: State) {
    |s.frag| == s.fragSize && s.remaining == 0
  }

  datatype Passed = Passed(s: State, used: nat, out: seq<Delivery>)

  /** The first half of a pass: copy into the current fragment and file it when complete. */
  function PassFragment(v: Variant, s: State, buf: Bytes): Passed {
    var (s1, n) := Copy(s, buf);
    if Complete(s1) then
      var (s2, out) := Finish(v, s1);
      Passed(s2, n, out)
    else Passed(s1, n, [])
  }

  /** One pass of the loop over a buffer that is not yet used up. */
  function Pass(v: Variant, s: State, buf: Bytes): (p: Passed)
    requires WF(s)
  {
    var p := PassFragment(v, s, buf);
    if p.used < |buf| then
      var (s', n) := ReadMarker(v, p.s, buf[p.used..]);
      Passed(s', p.used + n, p.out)
    else p
  }

  lemma FragmentProgress(v: Variant, s: State, buf: Bytes)
    requires WF(s)
    ensures var p := PassFragment(v, s, buf);
            && WF(p.s) && p.used <= |buf|
            && (p.used < |buf| ==> p.s.remaining < 0)
            && (s.remaining > 0 && buf != [] ==> p.used >= 1)
  {
    hide GetWord;
  }

  lemma MarkerProgress(v: Variant, s: State, buf: Bytes)
    requires WF(s) && s.remaining < 0 && buf != []
    ensures var (s', n) := ReadMarker(v, s, buf);
            WF(s') && 1 <= n <= |buf| && (n < |buf| ==> s'.remaining >= 0)
  {
    hide GetWord;
  }

  /** Every pass over a non-empty buffer uses at least one byte, and no more than there are. */
  lemma PassProgress(v: Variant, s: State, buf: Bytes)
    requires WF(s) && buf != []
    ensures WF(Pass(v, s, buf).s)
    ensures 1 <= Pass(v, s, buf).used <= |buf|
    ensures Pass(v, s, buf).used < |buf| ==> Pass(v, s, buf).s.remaining >= 0
  {
    hide PassFragment, ReadMarker, FragSize, LastFrag;
    FragmentProgress(v, s, buf);
    var p := PassFragment(v, s, buf);
    if p.used < |buf| {
      MarkerProgress(v, p.s, buf[p.used..]);
    }
  }

  /** update_frag_state over one read. */
  function Feed(v: Variant, s: State, buf: Bytes): (r: (State, seq<Delivery>))
    requires WF(s)
    ensures WF(r.0)
    decreases |buf|
  {
    if buf == [] then (s, [])
    else
      PassProgress(v, s, buf);
      var p := Pass(v, s, buf);
      var (s', out) := Feed(v, p.s, buf[p.used..]);
      (s', p.out + out)
  }

  /** A whole run: one update_frag_state for every read. */
  function FeedAll(v: Variant, s: State, chunks: seq<Bytes>): (r: (State, seq<Delivery>))
    requires WF(s)
    ensures WF(r.0)
    decreases |chunks|
  {
    if chunks == [] then (s, [])
    else
      var (s1, out) := Feed(v, s, chunks[0]);
      var (s2, outs) := FeedAll(v, s1, chunks[1..]);
      (s2, out + outs)
  }

  function Messages(out: seq<Delivery>): seq<Bytes> {
    seq(|out|, i requires 0 <= i < |out| => out[i].msg)
  }

  // ---------------------------------------------------------------------------
  // Intended: any cutting of any stream gives the records of the one-shot parser
  // ---------------------------------------------------------------------------

  /** The bytes taken in that belong to the marker or fragment still being read. */
  function Residual(s: State): Bytes
    requires WF(s)
  {
    if s.remaining < 0 then s.marker[..MARKER - s.markerRemaining] else s.marker + s.frag
  }

  ghost predicate SizeKept(s: State) {
    s.recordSize == |Concat(s.frags)|
  }

  /** A complete last fragment that no further byte has pushed up yet. */
  function Withheld(s: State): seq<Bytes> {
    if s.remaining == 0 && s.last then [Concat(s.frags) + s.frag] else []
  }

  lemma CopyKeeps(s: State, buf: Bytes)
    requires WF(s)
    ensures var (s', n) := Copy(s, buf);
            && WF(s') && n <= |buf| && Residual(s') + buf[n..] == Residual(s) + buf
            && s'.frags == s.frags && s'.recordSize == s.recordSize
            && (n < |buf| && s'.remaining >= 0 ==> Complete(s'))
  {
    var (s', n) := Copy(s, buf);
    assert buf == buf[..n] + buf[n..];
  }

  lemma FinishParses(s: State, rest: Bytes)
    requires WF(s) && Complete(s) && SizeKept(s)
    ensures var (s', out) := Finish(Intended, s);
            && WF(s') && SizeKept(s') && Residual(s') == []
            && Records(Residual(s) + rest, Concat(s.frags)) == Messages(out) + Records(rest, Concat(s'.frags))
            && forall d :: d in out ==> !d.overrun
  {
    ConcatAppend(s.frags, s.frag);
    var stream := Residual(s) + rest;
    assert stream[..MARKER] == s.marker;
    assert stream[MARKER..MARKER + s.fragSize] == s.frag;
    assert stream[MARKER + s.fragSize..] == rest;
    var (s', out) := Finish(Intended, s);
    var whole := Concat(s.frags) + s.frag;
    if s.last {
      assert whole[..|whole|] == whole;
      assert Messages(out) == [whole];
    } else {
      assert Messages(out) == [];
    }
  }

  lemma ReadMarkerKeeps(s: State, buf: Bytes)
    requires WF(s) && s.remaining < 0
    ensures var (s', n) := ReadMarker(Intended, s, buf);
            && WF(s') && n <= |buf| && Residual(s') + buf[n..] == Residual(s) + buf
            && s'.frags == s.frags && s'.recordSize == s.recordSize
  {
    var n := Min(|buf|, s.markerRemaining);
    var at := MARKER - s.markerRemaining;
    var m := Overlay(s.marker, at, buf[..n]);
    assert m[..at + n] == s.marker[..at] + buf[..n];
    assert buf == buf[..n] + buf[n..];
    if n == s.markerRemaining {
      assert m[..MARKER] == m == m + [];
    }
  }

  lemma FragmentParses(s: State, buf: Bytes, later: Bytes)
    requires WF(s) && SizeKept(s)
    ensures var p := PassFragment(Intended, s, buf);
            && WF(p.s) && SizeKept(p.s) && p.used <= |buf|
            && (p.used < |buf| ==> p.s.remaining < 0)
            && Records(Residual(s) + buf + later, Concat(s.frags)) ==
               Messages(p.out) + Records(Residual(p.s) + buf[p.used..] + later, Concat(p.s.frags))
            && forall d :: d in p.out ==> !d.overrun
  {
    hide Records, Copy, Residual, FragSize, LastFrag;
    CopyKeeps(s, buf);
    var (s1, n) := Copy(s, buf);
    var rest := buf[n..];
    if Complete(s1) {
      FinishParses(s1, rest + later);
      assert Residual(s1) + rest + later == Residual(s1) + (rest + later);
      assert [] + rest + later == rest + later;
    } else {
      NoMessages([], Records(Residual(s) + buf + later, Concat(s.frags)));
    }
  }

  /** What one pass hands up is what the parser takes off the front of the stream. */
  lemma PassParses(s: State, buf: Bytes, later: Bytes)
    requires WF(s) && SizeKept(s)
    ensures var p := Pass(Intended, s, buf);
            && WF(p.s) && SizeKept(p.s) && p.used <= |buf|
            && Records(Residual(s) + buf + later, Concat(s.frags)) ==
               Messages(p.out) + Records(Residual(p.s) + buf[p.used..] + later, Concat(p.s.frags))
            && forall d :: d in p.out ==> !d.overrun
  {
    hide Records, PassFragment, ReadMarker, Residual, WF, Messages, Concat;
    FragmentParses(s, buf, later);
    var p := PassFragment(Intended, s, buf);
    var rest := buf[p.used..];
    if p.used < |buf| {
      MarkerReady(p.s);
      ReadMarkerKeeps(p.s, rest);
      var (s', n) := ReadMarker(Intended, p.s, rest);
      assert Pass(Intended, s, buf) == Passed(s', p.used + n, p.out);
      assert buf[p.used + n..] == rest[n..];
      assert Residual(s') + buf[p.used + n..] == Residual(p.s) + rest;
    } else {
      assert Pass(Intended, s, buf) == p;
    }
  }

  lemma {:induction false} FeedParses(s: State, buf: Bytes, later: Bytes)
    requires WF(s) && SizeKept(s)
    ensures var (s', out) := Feed(Intended, s, buf);
            && SizeKept(s')
            && Records(Residual(s) + buf + later, Concat(s.frags)) ==
               Messages(out) + Records(Residual(s') + later, Concat(s'.frags))
            && forall d :: d in out ==> !d.overrun
    decreases |buf|
  {
    hide Records, Pass, Residual, WF, Messages, Concat, SizeKept;
    if buf == [] {
      NoMessages([], Records(Residual(s) + later, Concat(s.frags)));
      assert Residual(s) + buf == Residual(s);
    } else {
      PassProgress(Intended, s, buf);
      PassParses(s, buf, later);
      var p := Pass(Intended, s, buf);
      FeedParses(p.s, buf[p.used..], later);
      var (s', out) := Feed(Intended, p.s, buf[p.used..]);
      MessagesAppend(p.out, out);
      assert Messages(p.out) + (Messages(out) + Records(Residual(s') + later, Concat(s'.frags))) ==
             Messages(p.out) + Messages(out) + Records(Residual(s') + later, Concat(s'.frags));
    }
  }

  lemma {:induction false} FeedAllParses(s: State, chunks: seq<Bytes>)
    requires WF(s) && SizeKept(s)
    ensures var (s', out) := FeedAll(Intended, s, chunks);
            && SizeKept(s')
            && Records(Residual(s) + Concat(chunks), Concat(s.frags)) ==
               Messages(out) + Records(Residual(s'), Concat(s'.frags))
            && forall d :: d in out ==> !d.overrun
    decreases |chunks|
  {
    hide Records, Feed, Residual, WF, Messages, SizeKept;
    if chunks == [] {
      NoMessages([], Records(Residual(s), Concat(s.frags)));
      assert Residual(s) + Concat(chunks) == Residual(s);
    } else {
      FeedParses(s, chunks[0], Concat(chunks[1..]));
      var (s1, out1) := Feed(Intended, s, chunks[0]);
      FeedAllParses(s1, chunks[1..]);
      var (s2, out2) := FeedAll(Intended, s1, chunks[1..]);
      MessagesAppend(out1, out2);
      assert Residual(s) + chunks[0] + Concat(chunks[1..]) == Residual(s) + Concat(chunks);
      assert Messages(out1) + (Messages(out2) + Records(Residual(s2), Concat(s2.frags))) ==
             Messages(out1) + Messages(out2) + Records(Residual(s2), Concat(s2.frags));
    }
  }

  /** Nothing more can be parsed from what the machine still holds, but for a withheld record. */
  lemma ResidualHoldsNoRecord(s: State)
    requires WF(s)
    ensures Records(Residual(s), Concat(s.frags)) == Withheld(s)
  {
    var r := Residual(s);
    if s.remaining >= 0 {
      assert r[..MARKER] == s.marker;
      if s.remaining == 0 {
        assert r[MARKER..MARKER + s.fragSize] == s.frag;
        assert r[MARKER + s.fragSize..] == [];
        assert [Concat(s.frags) + s.frag] + [] == [Concat(s.frags) + s.frag];
      }
    }
  }

  /** Between passes only an empty fragment can be complete and not yet filed. */
  predicate Settled(s: State) {
    s.remaining == 0 ==> s.frag == []
  }

  lemma {:induction false} FeedSettles(v: Variant, s: State, buf: Bytes)
    requires WF(s) && Settled(s)
    ensures Settled(Feed(v, s, buf).0)
    decreases |buf|
  {
    if buf != [] {
      PassProgress(v, s, buf);
      var p := Pass(v, s, buf);
      assert Settled(p.s) by {
        FragmentProgress(v, s, buf);
      }
      hide WF, Pass;
      FeedSettles(v, p.s, buf[p.used..]);
    }
  }

  lemma {:induction false} FeedAllSettles(v: Variant, s: State, chunks: seq<Bytes>)
    requires WF(s) && Settled(s)
    ensures Settled(FeedAll(v, s, chunks).0)
    decreases |chunks|
  {
    if chunks != [] {
      FeedSettles(v, s, chunks[0]);
      FeedAllSettles(v, Feed(v, s, chunks[0]).0, chunks[1..]);
    }
  }

  /**
   For every stream and every way of cutting it into reads, the records handed up are those of
   the one-shot parser, in order, each whole; only a final record whose last fragment is empty
   waits for the next byte.
   */
  lemma IntendedYieldsRecords(stale: Bytes, chunks: seq<Bytes>)
    requires |stale| == MARKER
    ensures var (s, out) := FeedAll(Intended, Init(stale), chunks);
            && Messages(out) + Withheld(s) == Records(Concat(chunks), [])
            && |Withheld(s)| <= 1 && (Withheld(s) != [] ==> s.frag == [])
            && forall d :: d in out ==> !d.overrun
  {
    var s := Init(stale);
    FeedAllParses(s, chunks);
    assert Residual(s) + Concat(chunks) == Concat(chunks);
    ResidualHoldsNoRecord(FeedAll(Intended, s, chunks).0);
    FeedAllSettles(Intended, s, chunks);
  }

  lemma MarkerReady(s: State)
    requires WF(s)
    ensures |s.marker| == MARKER && s.markerRemaining <= MARKER
  {}

  lemma NoMessages(none: seq<Delivery>, r: seq<Bytes>)
    requires none == []
    ensures Messages(none) + r == r
  {}

  lemma MessagesAppend(a: seq<Delivery>, b: seq<Delivery>)
    ensures Messages(a + b) == Messages(a) + Messages(b)
  {}

  // ---------------------------------------------------------------------------
  // As written: when it does the same
  // ---------------------------------------------------------------------------

  /** Byte j of the marker buffer once a piece was put at offset at. */
  function ByteAfter(m: Bytes, at: nat, piece: Bytes, j: nat): byte
    requires |m| == MARKER && j < MARKER
  {
    if at <= j < at + |piece| then piece[j - at] else m[j]
  }

  /** The piece gives the same four bytes at the start of the marker buffer as in its own place. */
  predicate SplitHarmless(s: State, buf: Bytes)
    requires WF(s)
  {
    var piece := buf[..Min(|buf|, s.markerRemaining)];
    var at := MARKER - s.markerRemaining;
    && ByteAfter(s.marker, 0, piece, 0) == ByteAfter(s.marker, at, piece, 0)
    && ByteAfter(s.marker, 0, piece, 1) == ByteAfter(s.marker, at, piece, 1)
    && ByteAfter(s.marker, 0, piece, 2) == ByteAfter(s.marker, at, piece, 2)
    && ByteAfter(s.marker, 0, piece, 3) == ByteAfter(s.marker, at, piece, 3)
  }

  lemma OverlayBytes(m: Bytes, at: nat, piece: Bytes)
    requires |m| == MARKER && at + |piece| <= MARKER
    ensures Overlay(m, at, piece) ==
            [ByteAfter(m, at, piece, 0), ByteAfter(m, at, piece, 1), ByteAfter(m, at, piece, 2), ByteAfter(m, at, piece, 3)]
  {}

  lemma OverlaysAgree(s: State, buf: Bytes)
    requires WF(s)
    ensures var piece := buf[..Min(|buf|, s.markerRemaining)];
            Overlay(s.marker, 0, piece) == Overlay(s.marker, MARKER - s.markerRemaining, piece) <==> SplitHarmless(s, buf)
  {
    hide Overlay, ByteAfter, FragSize, LastFrag;
    var piece := buf[..Min(|buf|, s.markerRemaining)];
    var at := MARKER - s.markerRemaining;
    OverlayBytes(s.marker, 0, piece);
    OverlayBytes(s.marker, at, piece);
    var l, r := Overlay(s.marker, 0, piece), Overlay(s.marker, at, piece);
    assert l == r ==> l[0] == r[0] && l[1] == r[1] && l[2] == r[2] && l[3] == r[3];
  }

  /** A pass neither continues a split marker nor files an unfinished record that has bytes. */
  predicate PassClean(s: State, buf: Bytes)
    requires WF(s)
  {
    if s.remaining < 0 then
      s.markerRemaining == MARKER || SplitHarmless(s, buf)
    else
      var s1 := Copy(s, buf).0;
      Complete(s1) && !s1.last ==> s1.recordSize + s1.fragSize == 0
  }

  /** From any state, the code and the intended machine take the same pass exactly when it is clean. */
  lemma PassAgreesIffClean(s: State, buf: Bytes)
    requires WF(s) && buf != []
    ensures Pass(AsWritten, s, buf) == Pass(Intended, s, buf) <==> PassClean(s, buf)
  {
    hide GetWord, Concat, SplitHarmless, FragSize, LastFrag;
    if s.remaining < 0 {
      OverlaysAgree(s, buf);
      hide Overlay;
      assert buf[0..] == buf;
    } else {
      FragmentProgress(AsWritten, s, buf);
      FragmentProgress(Intended, s, buf);
      FragmentAgreesIffClean(s, buf);
      hide PassFragment, Copy;
    }
  }

  lemma FragmentAgreesIffClean(s: State, buf: Bytes)
    requires WF(s) && s.remaining >= 0 && buf != []
    ensures var pa, pi := PassFragment(AsWritten, s, buf), PassFragment(Intended, s, buf);
            && pa.used == pi.used && pa.out == pi.out && pa.s == pi.s.(recordSize := pa.s.recordSize)
            && (pa.s.recordSize == pi.s.recordSize <==> PassClean(s, buf))
            && (pi.used < |buf| ==> pi.s.markerRemaining == MARKER)
  {
    hide GetWord, Concat, FragSize, LastFrag;
  }

  /**
   What the code hands up for a record with bytes before its last fragment: as many bytes as the
   last fragment has, from the front of the record, with the copy running over.
   */
  lemma DividedRecordIsCut(s: State)
    requires WF(s) && Complete(s) && s.last && s.recordSize == 0
    ensures var whole := Concat(s.frags) + s.frag;
            Finish(AsWritten, s).1 == [Delivery(whole[..|s.frag|], Concat(s.frags) != [])]
  {
    hide GetWord;
    ConcatAppend(s.frags, s.frag);
  }

  // ---- where it goes wrong

  lemma RecordsOfOne(m: Bytes, body: Bytes, rest: Bytes, acc: Bytes)
    requires |m| == MARKER && FragSize(m) == |body|
    ensures Records(m + body + rest, acc) ==
            if LastFrag(m) then [acc + body] + Records(rest, []) else Records(rest, acc + body)
  {
    var stream := m + body + rest;
    assert stream[..MARKER] == m && stream[MARKER..MARKER + |body|] == body && stream[MARKER + |body|..] == rest;
  }

  lemma RecordsOfNone()
    ensures Records([], []) == []
  {}

  lemma FeedInOnePass(v: Variant, s: State, buf: Bytes)
    requires WF(s) && buf != [] && Pass(v, s, buf).used == |buf|
    ensures Feed(v, s, buf) == (Pass(v, s, buf).s, Pass(v, s, buf).out)
  {
    var p := Pass(v, s, buf);
    assert buf[p.used..] == [];
    assert p.out + [] == p.out;
  }

  lemma FeedThree(v: Variant, s: State, a: Bytes, b: Bytes, c: Bytes)
    requires WF(s)
    ensures var (s1, o1) := Feed(v, s, a);
            var (s2, o2) := Feed(v, s1, b);
            var (s3, o3) := Feed(v, s2, c);
            FeedAll(v, s, [a, b, c]) == (s3, o1 + (o2 + o3))
  {
    hide Feed, WF;
    var s1 := Feed(v, s, a).0;
    var s2 := Feed(v, s1, b).0;
    var (s3, o3) := Feed(v, s2, c);
    assert [a, b, c][1..] == [b, c] && [b, c][1..] == [c] && [c][1..] == [];
    assert FeedAll(v, s3, []) == (s3, []);
    assert o3 + [] == o3;
    assert FeedAll(v, s2, [c]) == (s3, o3);
  }

  /** A marker cut after its first byte: the record is never handed up. */
  lemma SplitMarkerLosesRecord(stale: Bytes)
    requires |stale| == MARKER
    ensures FeedAll(AsWritten, Init(stale), [[0x80], [0, 0, 1], [7]]).1 == []
    ensures Records([0x80, 0, 0, 1, 7], []) == [[7]]
  {
    hide Records, FeedAll;
    SplitMarkerRun(stale);
    var m: Bytes, body: Bytes := [0x80, 0, 0, 1], [7];
    RecordsOfOne(m, body, [], []);
    RecordsOfNone();
    assert m + body + [] == [0x80, 0, 0, 1, 7];
    assert [] + body == body && [body] + [] == [body];
  }

  lemma SplitMarkerRun(stale: Bytes)
    requires |stale| == MARKER
    ensures FeedAll(AsWritten, Init(stale), [[0x80], [0, 0, 1], [7]]).1 == []
  {
    hide Feed, FeedAll;
    var a: Bytes, b: Bytes, c: Bytes := [0x80], [0, 0, 1], [7];
    var s0 := Init(stale);
    var s1 := s0.(marker := [0x80] + stale[1..], markerRemaining := 3);
    assert Pass(AsWritten, s0, a) == Passed(s1, 1, []);
    FeedInOnePass(AsWritten, s0, a);
    var m: Bytes := [0, 0, 1, stale[3]];
    assert Overlay(s1.marker, 0, b) == m;
    var s2 := s1.(marker := m, markerRemaining := 0, fragSize := FragSize(m), last := false, remaining := FragSize(m), frag := []);
    assert Pass(AsWritten, s1, b) == Passed(s2, 3, []);
    FeedInOnePass(AsWritten, s1, b);
    assert FragSize(m) >= 256;
    assert Pass(AsWritten, s2, c).used == 1 && Pass(AsWritten, s2, c).out == [];
    FeedInOnePass(AsWritten, s2, c);
    FeedThree(AsWritten, s0, a, b, c);
  }

  /** A record of two fragments: its first byte is handed up alone and the copy overruns. */
  lemma SecondFragmentOverruns(stale: Bytes)
    requires |stale| == MARKER
    ensures Feed(AsWritten, Init(stale), [0, 0, 0, 1, 5, 0x80, 0, 0, 1, 6]).1 == [Delivery([5], true)]
    ensures Records([0, 0, 0, 1, 5, 0x80, 0, 0, 1, 6], []) == [[5, 6]]
  {
    hide Records, Feed;
    SecondFragmentRun(stale);
    var five: Bytes, six: Bytes := [5], [6];
    var second := SECOND_MARKER + six + [];
    RecordsOfOne(FIRST_MARKER, five, second, []);
    RecordsOfOne(SECOND_MARKER, six, [], five);
    RecordsOfNone();
    assert FIRST_MARKER + five + second == [0, 0, 0, 1, 5, 0x80, 0, 0, 1, 6];
    assert [] + five == five && five + six == [5, 6] && [[5, 6]] + [] == [[5, 6]];
  }

  const FIRST_MARKER: Bytes := [0, 0, 0, 1]
  const SECOND_MARKER: Bytes := [0x80, 0, 0, 1]
  const AFTER_FIRST_MARKER := State([], 0, 1, [], 1, 0, FIRST_MARKER, false)
  const AFTER_SECOND_MARKER := State([[5]], 0, 1, [], 1, 0, SECOND_MARKER, true)

  lemma FirstPass(stale: Bytes)
    requires |stale| == MARKER
    ensures Pass(AsWritten, Init(stale), [0, 0, 0, 1, 5, 0x80, 0, 0, 1, 6]) == Passed(AFTER_FIRST_MARKER, 4, [])
  {
    var b1: Bytes := [0, 0, 0, 1, 5, 0x80, 0, 0, 1, 6];
    assert b1[0..][..4] == FIRST_MARKER;
    assert Overlay(stale, 0, FIRST_MARKER) == FIRST_MARKER;
  }

  lemma SecondPass()
    ensures Pass(AsWritten, AFTER_FIRST_MARKER, [5, 0x80, 0, 0, 1, 6]) == Passed(AFTER_SECOND_MARKER, 5, [])
  {
    var b2: Bytes := [5, 0x80, 0, 0, 1, 6];
    assert b2[..1] == [5] && b2[1..][..4] == SECOND_MARKER && [] + b2[..1] == [5];
    assert [] + [[5]] == [[5]];
    var filled := AFTER_FIRST_MARKER.(frag := [5], remaining := 0);
    assert Copy(AFTER_FIRST_MARKER, b2) == (filled, 1);
    var filed := filled.(frags := [[5]], markerRemaining := 4, remaining := -1);
    assert Finish(AsWritten, filled) == (filed, []);
    hide Copy, Finish, Concat;
    SecondMarker(filed, b2[1..]);
    hide ReadMarker;
  }

  lemma SecondMarker(filed: State, buf: Bytes)
    requires filed == AFTER_FIRST_MARKER.(frag := [5], frags := [[5]], markerRemaining := 4, remaining := -1)
    requires |buf| == 5 && buf[..4] == SECOND_MARKER
    ensures ReadMarker(AsWritten, filed, buf) == (AFTER_SECOND_MARKER, 4)
  {
    assert Overlay(FIRST_MARKER, 0, SECOND_MARKER) == SECOND_MARKER;
  }

  lemma ThirdPass()
    ensures Pass(AsWritten, AFTER_SECOND_MARKER, [6]).used == 1
    ensures Pass(AsWritten, AFTER_SECOND_MARKER, [6]).out == [Delivery([5], true)]
  {
    var filled := AFTER_SECOND_MARKER.(frag := [6], remaining := 0);
    var b3: Bytes := [6];
    assert b3[..1] == [6] && [] + b3[..1] == [6];
    assert Copy(AFTER_SECOND_MARKER, b3) == (filled, 1);
    assert [[5]] + [[6]] == [[5], [6]];
    assert Concat([[6]]) == [6];
    assert [[5], [6]][1..] == [[6]];
    assert Concat([[5], [6]]) == [5, 6];
    assert [5, 6][..1] == [5];
  }

  lemma SecondFragmentRun(stale: Bytes)
    requires |stale| == MARKER
    ensures Feed(AsWritten, Init(stale), [0, 0, 0, 1, 5, 0x80, 0, 0, 1, 6]).1 == [Delivery([5], true)]
  {
    hide Pass;
    FirstPass(stale);
    SecondPass();
    ThirdPass();
    var b1: Bytes, b2: Bytes, b3: Bytes := [0, 0, 0, 1, 5, 0x80, 0, 0, 1, 6], [5, 0x80, 0, 0, 1, 6], [6];
    FeedInOnePass(AsWritten, AFTER_SECOND_MARKER, b3);
    assert b1[4..] == b2 && b2[5..] == b3;
    assert Feed(AsWritten, AFTER_FIRST_MARKER, b2).1 == [Delivery([5], true)];
  }
}
