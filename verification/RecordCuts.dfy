/**
 The record machine as the code has it, over whole runs: which streams and which cuts into reads
 it turns into the records of the one-shot parser.

 Two things decide. A marker that arrives in pieces is put together wrongly unless the bytes
 happen to agree (MarkersRight), and a record with bytes before its last fragment is cut short
 when it is handed up (Undivided). Both are stated on the bytes and cuts alone.
 */
module RecordCuts {
  import opened Base
  import opened RecordMarking

  // ---------------------------------------------------------------------------
  // Streams and cuts
  // ---------------------------------------------------------------------------

  /** A stream with its cuts: each byte, and whether a read starts with it. */
  type Cut = seq<(byte, bool)>

  function Tag(buf: Bytes, first: bool): (t: Cut)
    ensures |t| == |buf|
  {
    seq(|buf|, j requires 0 <= j < |buf| => (buf[j], first && j == 0))
  }

  function Reads(chunks: seq<Bytes>): Cut {
    if chunks == [] then [] else Tag(chunks[0], true) + Reads(chunks[1..])
  }

  function Plain(t: Cut): (b: Bytes)
    ensures |b| == |t|
  {
    seq(|t|, j requires 0 <= j < |t| => t[j].0)
  }

  /** The marker buffer after these bytes, each piece put at its start as line 556 does. */
  function Spelled(m: Bytes, at: nat, t: Cut): (r: Bytes)
    requires |m| == MARKER && at + |t| <= MARKER
    ensures |r| == MARKER
    decreases |t|
  {
    if t == [] then m
    else
      var k := if t[0].1 then 0 else at;
      Spelled(m[k := t[0].0], k + 1, t[1..])
  }

  /** Every marker of the stream is put together right, given what the buffer holds before it. */
  predicate MarkersRight(m: Bytes, got: Bytes, t: Cut)
    requires |m| == MARKER && |got| < MARKER
    decreases |t|, 0
  {
    |got| + |t| < MARKER ||
    (var k := MARKER - |got|;
     var whole := got + Plain(t[..k]);
     Spelled(m, 0, t[..k]) == whole && Onward(whole, FragSize(whole), t[k..]))
  }

  /** The same from inside a fragment that needs left more bytes. */
  predicate Onward(m: Bytes, left: nat, t: Cut)
    requires |m| == MARKER
    decreases |t|, 1
  {
    |t| < left || MarkersRight(m, [], t[left..])
  }

  /**
   No record that is handed up has bytes before its last fragment. The first one has such bytes
   already if early; a record whose last fragment is empty is handed up with the byte after it.
   */
  predicate Undivided(stream: Bytes, early: bool)
    decreases |stream|
  {
    |stream| < MARKER ||
    (var n := FragSize(stream[..MARKER]);
     |stream| < MARKER + n ||
     (var rest := stream[MARKER + n..];
      if LastFrag(stream[..MARKER]) then (n == 0 && rest == []) || (!early && Undivided(rest, false))
      else Undivided(rest, early || n > 0)))
  }

  // ---- how the buffer is spelled

  lemma {:induction false} SpelledTag(m: Bytes, at: nat, buf: Bytes, first: bool)
    requires |m| == MARKER && at + |buf| <= MARKER && (first ==> at == 0)
    ensures Spelled(m, at, Tag(buf, first)) == Overlay(m, at, buf)
    decreases |buf|
  {
    if buf == [] {
      assert Tag(buf, first) == [];
      assert Overlay(m, at, buf) == m;
    } else {
      assert Tag(buf, first)[1..] == Tag(buf[1..], false);
      SpelledTag(m[at := buf[0]], at + 1, buf[1..], false);
      OverlayOne(m, at, buf);
    }
  }

  lemma OverlayOne(m: Bytes, at: nat, buf: Bytes)
    requires buf != [] && at + |buf| <= |m|
    ensures Overlay(m[at := buf[0]], at + 1, buf[1..]) == Overlay(m, at, buf)
  {}

  lemma {:induction false} SpelledAppend(m: Bytes, at: nat, t: Cut, u: Cut)
    requires |m| == MARKER && at + |t| + |u| <= MARKER && (u == [] || u[0].1)
    ensures Spelled(m, at, t + u) == Spelled(Spelled(m, at, t), 0, u)
    decreases |t|
  {
    if t == [] {
      assert t + u == u;
    } else {
      assert (t + u)[1..] == t[1..] + u;
      var k := if t[0].1 then 0 else at;
      SpelledAppend(m[k := t[0].0], k + 1, t[1..], u);
    }
  }

  // ---------------------------------------------------------------------------
  // The two machines side by side
  // ---------------------------------------------------------------------------

  /** The code and the intended machine agree but for the record size and a marker in progress. */
  ghost predicate InStep(a: State, i: State) {
    && WF(a) && WF(i) && SizeKept(i) && a.recordSize == 0
    && a == i.(recordSize := 0, marker := a.marker)
    && (i.remaining >= 0 ==> a.marker == i.marker)
  }

  /** The markers still to come are put together right. */
  predicate RightFrom(a: State, i: State, t: Cut)
    requires WF(a) && WF(i)
  {
    if i.remaining < 0 then MarkersRight(a.marker, i.marker[..MARKER - i.markerRemaining], t)
    else Onward(i.marker, i.remaining, t)
  }

  /** Both have just read a marker, and not the same. */
  predicate Misread(a: State, i: State) {
    && WF(a) && WF(i) && a.remaining == a.fragSize && i.remaining == i.fragSize && a.frag == i.frag == []
    && a.marker != i.marker
  }

  lemma MarkerUnfinished(a: State, i: State, buf: Bytes, first: bool, later: Cut)
    requires InStep(a, i) && i.remaining < 0 && |buf| < i.markerRemaining
    requires later == [] || later[0].1
    ensures var a', i' := ReadMarker(AsWritten, a, buf).0, ReadMarker(Intended, i, buf).0;
            && InStep(a', i') && (RightFrom(a, i, Tag(buf, first) + later) <==> RightFrom(a', i', later))
  {
    hide Onward, FragSize, LastFrag;
    var t := Tag(buf, first) + later;
    var n := |buf|;
    var k := i.markerRemaining;
    var got := i.marker[..MARKER - k];
    var a', i' := ReadMarker(AsWritten, a, buf).0, ReadMarker(Intended, i, buf).0;
    assert buf[..n] == buf;
    var got' := i'.marker[..MARKER - (k - n)];
    assert got' == got + buf;
    if |got| + |t| >= MARKER {
      var piece := later[..k - n];
      assert t[..k] == Tag(buf, first) + piece;
      assert Plain(t[..k]) == buf + Plain(piece);
      assert got + Plain(t[..k]) == got' + Plain(piece);
      SpelledAppend(a.marker, 0, Tag(buf, first), piece);
      SpelledTag(a.marker, 0, buf, first);
      assert t[k..] == later[k - n..];
    }
  }

  lemma MarkerFinished(a: State, i: State, buf: Bytes, first: bool, later: Cut)
    requires InStep(a, i) && i.remaining < 0 && |buf| >= i.markerRemaining
    ensures var (a', n), i' := ReadMarker(AsWritten, a, buf), ReadMarker(Intended, i, buf).0;
            && n == i.markerRemaining == ReadMarker(Intended, i, buf).1
            && WF(a') && WF(i')
            && (RightFrom(a, i, Tag(buf, first) + later) <==>
                a'.marker == i'.marker && RightFrom(a', i', (Tag(buf, first) + later)[n..]))
            && if a'.marker == i'.marker then InStep(a', i') else Misread(a', i')
  {
    hide Onward, GetWord;
    var t := Tag(buf, first) + later;
    var k := i.markerRemaining;
    var piece := buf[..k];
    assert t[..k] == Tag(piece, first);
    assert Plain(t[..k]) == piece;
    SpelledTag(a.marker, 0, piece, first);
    var i' := ReadMarker(Intended, i, buf).0;
    assert i'.marker == i.marker[..MARKER - k] + piece;
  }

  lemma FragmentPair(a: State, i: State, buf: Bytes, t: Cut)
    requires InStep(a, i) && i.remaining >= 0 && |buf| <= |t|
    ensures var pa, pi := PassFragment(AsWritten, a, buf), PassFragment(Intended, i, buf);
            && pa.used == pi.used <= |buf| && InStep(pa.s, pi.s)
            && (RightFrom(a, i, t) <==> RightFrom(pa.s, pi.s, t[pi.used..]))
            && SameOrShort(i, pa.out, pi.out)
            && (pi.used < |buf| ==> pi.s.remaining < 0 && pi.s.markerRemaining == MARKER)
  {
    hide MarkersRight, FragSize, LastFrag, Concat;
    ConcatAppend(i.frags, Copy(i, buf).0.frag);
    var n := Copy(i, buf).1;
    if n < i.remaining {
      assert |t| >= i.remaining ==> t[i.remaining..] == t[n..][i.remaining - n..];
    } else {
      var i1 := Copy(i, buf).0;
      FinishPair(Copy(a, buf).0, i1);
      assert t[n..][0..] == t[n..];
    }
  }

  /** What both hand up: the same, unless the record already has bytes, and then not the same. */
  predicate SameOrShort(i: State, outA: seq<Delivery>, outI: seq<Delivery>) {
    && |outA| == |outI| <= 1
    && if i.recordSize == 0 then outA == outI else |outI| == 1 ==> outA[0].msg != outI[0].msg
  }

  lemma FinishPair(a: State, i: State)
    requires InStep(a, i) && Complete(i)
    ensures var (a', outA), (i', outI) := Finish(AsWritten, a), Finish(Intended, i);
            && InStep(a', i') && a'.marker == i'.marker == i.marker && i'.remaining == -1 && i'.markerRemaining == MARKER
            && SameOrShort(i, outA, outI)
  {
    hide FragSize, LastFrag;
    ConcatAppend(i.frags, i.frag);
    var whole := Concat(i.frags) + i.frag;
    assert Concat(i.frags + [i.frag]) == whole;
  }

  /** The stream the intended machine has yet to parse. */
  function Ahead(i: State, b: Bytes): Bytes
    requires WF(i)
  {
    Residual(i) + b
  }

  lemma FinishUndivided(i: State, rest: Bytes)
    requires WF(i) && SizeKept(i) && Complete(i) && (i.fragSize > 0 || rest != [])
    ensures var (i', out) := Finish(Intended, i);
            && WF(i') && (Undivided(Ahead(i, rest), i.recordSize > 0) <==>
                          (out != [] ==> i.recordSize == 0) && Undivided(Ahead(i', rest), i'.recordSize > 0))
  {
    hide FragSize, LastFrag;
    var stream := Ahead(i, rest);
    assert stream[..MARKER] == i.marker;
    assert stream[MARKER + i.fragSize..] == rest;
    assert Ahead(Finish(Intended, i).0, rest) == rest;
  }

  lemma FragmentUndivided(i: State, buf: Bytes, later: Bytes)
    requires WF(i) && SizeKept(i) && i.remaining >= 0 && buf != []
    ensures var p := PassFragment(Intended, i, buf);
            && WF(p.s) && p.used <= |buf| && (p.used < |buf| ==> p.s.remaining < 0)
            && (Undivided(Ahead(i, buf + later), i.recordSize > 0) <==>
                (p.out != [] ==> i.recordSize == 0) && Undivided(Ahead(p.s, buf[p.used..] + later), p.s.recordSize > 0))
  {
    hide Undivided, Copy, Residual, FragSize, LastFrag, Concat;
    FragmentProgress(Intended, i, buf);
    CopyKeeps(i, buf);
    var (i1, n) := Copy(i, buf);
    CopyCounts(i, buf);
    assert Residual(i) + (buf + later) == Residual(i) + buf + later;
    assert Residual(i1) + (buf[n..] + later) == Residual(i1) + buf[n..] + later;
    if Complete(i1) {
      FinishUndivided(i1, buf[n..] + later);
    }
  }

  lemma CopyCounts(i: State, buf: Bytes)
    requires WF(i) && i.remaining >= 0 && buf != []
    ensures var (i1, n) := Copy(i, buf); i1.fragSize == i.fragSize && (i.fragSize == 0 ==> n == 0)
  {}

  lemma MarkerUndivided(i: State, buf: Bytes, later: Bytes)
    requires WF(i) && i.remaining < 0
    ensures var (i', n) := ReadMarker(Intended, i, buf);
            && WF(i') && n <= |buf| && i'.recordSize == i.recordSize
            && Ahead(i', buf[n..] + later) == Ahead(i, buf + later)
  {
    hide Residual, FragSize, LastFrag;
    ReadMarkerKeeps(i, buf);
    var (i', n) := ReadMarker(Intended, i, buf);
    assert Residual(i') + (buf[n..] + later) == Residual(i') + buf[n..] + later;
    assert Residual(i) + (buf + later) == Residual(i) + buf + later;
  }

  /** One pass of both machines over the same bytes. */
  ghost predicate PassPaired(a: State, i: State, buf: Bytes, t: Cut)
    requires WF(a) && WF(i) && |buf| <= |t|
  {
    var pa, pi := Pass(AsWritten, a, buf), Pass(Intended, i, buf);
    && pa.used == pi.used <= |buf| && WF(pa.s) && WF(pi.s)
    && SameOrShort(i, pa.out, pi.out)
    && (InStep(pa.s, pi.s) || Misread(pa.s, pi.s))
    && (RightFrom(a, i, t) <==> InStep(pa.s, pi.s) && RightFrom(pa.s, pi.s, t[pi.used..]))
  }

  lemma MarkerPair(a: State, i: State, buf: Bytes, first: bool, later: Cut)
    requires InStep(a, i) && i.remaining < 0 && (later == [] || later[0].1)
    ensures var t := Tag(buf, first) + later;
            var (a', n), (i', m) := ReadMarker(AsWritten, a, buf), ReadMarker(Intended, i, buf);
            && n == m <= |buf| && WF(a') && WF(i')
            && (InStep(a', i') || Misread(a', i'))
            && (RightFrom(a, i, t) <==> InStep(a', i') && RightFrom(a', i', t[n..]))
  {
    if |buf| < i.markerRemaining {
      MarkerUnfinished(a, i, buf, first, later);
      assert (Tag(buf, first) + later)[|buf|..] == later;
    } else {
      MarkerFinished(a, i, buf, first, later);
      hide RightFrom, Onward, MarkersRight, Spelled;
    }
  }

  lemma NoFragmentYet(v: Variant, s: State, buf: Bytes)
    requires WF(s) && s.remaining < 0
    ensures PassFragment(v, s, buf) == Passed(s, 0, [])
  {}

  lemma TagRest(buf: Bytes, first: bool, n: nat, later: Cut)
    requires n <= |buf|
    ensures (Tag(buf, first) + later)[n..] == Tag(buf[n..], first && n == 0) + later
  {}

  lemma PassPair(a: State, i: State, buf: Bytes, first: bool, later: Cut)
    requires InStep(a, i) && buf != [] && (later == [] || later[0].1)
    ensures PassPaired(a, i, buf, Tag(buf, first) + later)
  {
    hide PassFragment, ReadMarker, MarkersRight, RightFrom, Misread, Tag, FragSize, LastFrag, Concat, SizeKept;
    var t := Tag(buf, first) + later;
    if i.remaining >= 0 {
      FragmentPair(a, i, buf, t);
    } else {
      NoFragmentYet(AsWritten, a, buf);
      NoFragmentYet(Intended, i, buf);
      assert t[0..] == t;
    }
    var fa, fi := PassFragment(AsWritten, a, buf), PassFragment(Intended, i, buf);
    var n := fi.used;
    if n < |buf| {
      TagRest(buf, first, n, later);
      MarkerPair(fa.s, fi.s, buf[n..], first && n == 0, later);
      var m := ReadMarker(Intended, fi.s, buf[n..]).1;
      assert t[n..][m..] == t[n + m..];
    }
  }

  lemma PassUndivided(i: State, buf: Bytes, later: Bytes)
    requires WF(i) && SizeKept(i) && buf != []
    ensures var p := Pass(Intended, i, buf);
            && WF(p.s) && p.used <= |buf|
            && (Undivided(Ahead(i, buf + later), i.recordSize > 0) <==>
                (p.out != [] ==> i.recordSize == 0) && Undivided(Ahead(p.s, buf[p.used..] + later), p.s.recordSize > 0))
  {
    hide PassFragment, ReadMarker, Undivided, Ahead, FragSize, LastFrag, Concat, SizeKept;
    if i.remaining >= 0 {
      FragmentUndivided(i, buf, later);
    } else {
      NoFragmentYet(Intended, i, buf);
      assert buf[0..] == buf;
    }
    var f := PassFragment(Intended, i, buf);
    if f.used < |buf| {
      MarkerUndivided(f.s, buf[f.used..], later);
      var m := ReadMarker(Intended, f.s, buf[f.used..]).1;
      assert buf[f.used..][m..] == buf[f.used + m..];
    }
  }

  lemma SplitsEqual<T>(a: seq<T>, b: seq<T>, c: seq<T>, d: seq<T>)
    requires |a| == |c|
    ensures a + b == c + d <==> a == c && b == d
  {
    assert (a + b)[..|a|] == a && (a + b)[|a|..] == b && (c + d)[..|c|] == c && (c + d)[|c|..] == d;
  }

  /** Some deliveries of both machines and what they say about the stream. */
  ghost predicate Alike(outA: seq<Delivery>, outI: seq<Delivery>) {
    && |outA| == |outI|
    && (Messages(outA) == Messages(outI) ==> outA == outI)
  }

  lemma AlikeAppend(a: seq<Delivery>, b: seq<Delivery>, c: seq<Delivery>, d: seq<Delivery>)
    requires Alike(a, b) && Alike(c, d)
    ensures Alike(a + c, b + d)
    ensures Messages(a + c) == Messages(b + d) <==> Messages(a) == Messages(b) && Messages(c) == Messages(d)
  {
    MessagesAppend(a, c);
    MessagesAppend(b, d);
    SplitsEqual(Messages(a), Messages(c), Messages(b), Messages(d));
  }

  lemma ShortMeansOther(i: State, outA: seq<Delivery>, outI: seq<Delivery>)
    requires SameOrShort(i, outA, outI)
    ensures Alike(outA, outI)
    ensures Messages(outA) == Messages(outI) <==> (outI != [] ==> i.recordSize == 0)
  {
    if outI == [] {
      assert outA == outI;
    } else {
      assert Messages(outA)[0] == outA[0].msg && Messages(outI)[0] == outI[0].msg;
    }
  }

  lemma {:induction false} FeedPair(a: State, i: State, buf: Bytes, first: bool, later: Cut)
    requires InStep(a, i) && (later == [] || later[0].1)
    requires RightFrom(a, i, Tag(buf, first) + later)
    ensures var (a', outA), (i', outI) := Feed(AsWritten, a, buf), Feed(Intended, i, buf);
            && InStep(a', i') && RightFrom(a', i', later) && Alike(outA, outI)
            && (Undivided(Ahead(i, buf + Plain(later)), i.recordSize > 0) <==>
                Messages(outA) == Messages(outI) && Undivided(Ahead(i', Plain(later)), i'.recordSize > 0))
    decreases |buf|
  {
    hide Pass, RightFrom, Undivided, Ahead, Messages, WF, Tag, Plain, SameOrShort, Misread, SizeKept;
    StepWF(a, i);
    if buf == [] {
      TagNothing(first, later);
      assert buf + Plain(later) == Plain(later);
      NothingOut(i);
      ShortMeansOther(i, [], []);
    } else {
      PassProgress(AsWritten, a, buf);
      PassProgress(Intended, i, buf);
      PassPair(a, i, buf, first, later);
      PassUndivided(i, buf, Plain(later));
      var pa, pi := Pass(AsWritten, a, buf), Pass(Intended, i, buf);
      var n := pi.used;
      TagRest(buf, first, n, later);
      FeedPair(pa.s, pi.s, buf[n..], first && n == 0, later);
      ShortMeansOther(i, pa.out, pi.out);
      AlikeAppend(pa.out, pi.out, Feed(AsWritten, pa.s, buf[n..]).1, Feed(Intended, pi.s, buf[n..]).1);
    }
  }

  lemma StepWF(a: State, i: State)
    requires InStep(a, i)
    ensures WF(a) && WF(i) && SizeKept(i)
  {}

  lemma TagNothing(first: bool, later: Cut)
    ensures Tag([], first) + later == later
  {}

  lemma NothingOut(i: State)
    ensures SameOrShort(i, [], [])
  {}

  lemma {:induction false} ReadsStart(chunks: seq<Bytes>)
    ensures Reads(chunks) == [] || Reads(chunks)[0].1
  {
    if chunks != [] {
      ReadsStart(chunks[1..]);
    }
  }

  lemma {:induction false} PlainReads(chunks: seq<Bytes>)
    ensures Plain(Reads(chunks)) == Concat(chunks)
  {
    if chunks != [] {
      PlainReads(chunks[1..]);
      assert Plain(Tag(chunks[0], true)) == chunks[0];
      assert Plain(Tag(chunks[0], true) + Reads(chunks[1..])) == Plain(Tag(chunks[0], true)) + Plain(Reads(chunks[1..]));
    }
  }

  lemma {:induction false} FeedAllPair(a: State, i: State, chunks: seq<Bytes>)
    requires InStep(a, i) && RightFrom(a, i, Reads(chunks))
    ensures var (a', outA), (i', outI) := FeedAll(AsWritten, a, chunks), FeedAll(Intended, i, chunks);
            && InStep(a', i') && Alike(outA, outI)
            && (Undivided(Ahead(i, Concat(chunks)), i.recordSize > 0) <==>
                Messages(outA) == Messages(outI) && Undivided(Ahead(i', []), i'.recordSize > 0))
    decreases |chunks|
  {
    hide Feed, RightFrom, Undivided, Ahead, Messages, WF, Tag, Plain, SameOrShort, SizeKept;
    StepWF(a, i);
    if chunks == [] {
      NothingOut(i);
      ShortMeansOther(i, [], []);
    } else {
      var later := Reads(chunks[1..]);
      ReadsStart(chunks[1..]);
      PlainReads(chunks[1..]);
      FeedPair(a, i, chunks[0], true, later);
      var (a1, outA1) := Feed(AsWritten, a, chunks[0]);
      var (i1, outI1) := Feed(Intended, i, chunks[0]);
      FeedAllPair(a1, i1, chunks[1..]);
      AlikeAppend(outA1, outI1, FeedAll(AsWritten, a1, chunks[1..]).1, FeedAll(Intended, i1, chunks[1..]).1);
    }
  }

  /** What a machine still holds hands up nothing. */
  lemma NothingAhead(i: State)
    requires WF(i) && Settled(i)
    ensures Undivided(Ahead(i, []), i.recordSize > 0)
  {
    var r := Ahead(i, []);
    if i.remaining >= 0 {
      assert r[..MARKER] == i.marker;
      assert i.remaining == 0 ==> r[MARKER + i.fragSize..] == [];
    }
  }

  lemma StartInStep(stale: Bytes, chunks: seq<Bytes>)
    requires |stale| == MARKER
    ensures var s := Init(stale);
            && InStep(s, s) && Settled(s) && s.recordSize == 0
            && (RightFrom(s, s, Reads(chunks)) <==> MarkersRight(stale, [], Reads(chunks)))
            && Ahead(s, Concat(chunks)) == Concat(chunks)
  {
    hide MarkersRight;
    assert stale[..0] == [];
  }

  lemma SameWithheld(a: State, i: State)
    requires InStep(a, i)
    ensures Withheld(a) == Withheld(i)
  {}

  /**
   For every stream and every cut on which no marker is misread, the code as written hands up the
   records of the one-shot parser exactly when no record handed up has bytes before its last
   fragment, and then no copy overruns.
   */
  lemma AsWrittenYieldsRecordsIff(stale: Bytes, chunks: seq<Bytes>)
    requires |stale| == MARKER && MarkersRight(stale, [], Reads(chunks))
    ensures var (s, out) := FeedAll(AsWritten, Init(stale), chunks);
            && (Messages(out) + Withheld(s) == Records(Concat(chunks), []) <==> Undivided(Concat(chunks), false))
            && (Undivided(Concat(chunks), false) ==>
                out == FeedAll(Intended, Init(stale), chunks).1 && forall d :: d in out ==> !d.overrun)
  {
    hide FeedAll, RightFrom, MarkersRight, Undivided, Ahead, Messages, WF, Init, Reads, Withheld, SizeKept;
    var s := Init(stale);
    StartInStep(stale, chunks);
    StepWF(s, s);
    FeedAllPair(s, s, chunks);
    FeedAllSettles(Intended, s, chunks);
    var (a, outA) := FeedAll(AsWritten, s, chunks);
    var (i, outI) := FeedAll(Intended, s, chunks);
    StepWF(a, i);
    NothingAhead(i);
    SameWithheld(a, i);
    IntendedYieldsRecords(stale, chunks);
    SameLength(outA, outI);
    SplitsEqual(Messages(outA), Withheld(a), Messages(outI), Withheld(i));
  }

  lemma SameLength(a: seq<Delivery>, b: seq<Delivery>)
    requires |a| == |b|
    ensures |Messages(a)| == |Messages(b)|
  {}

  // ---------------------------------------------------------------------------
  // Reads that do not end inside a marker
  // ---------------------------------------------------------------------------

  /** What is left of a stream after its complete fragments. */
  function Leftover(stream: Bytes): Bytes
    decreases |stream|
  {
    if |stream| < MARKER || |stream| < MARKER + FragSize(stream[..MARKER]) then stream
    else Leftover(stream[MARKER + FragSize(stream[..MARKER])..])
  }

  /** The stream ends inside a marker. */
  predicate EndsInMarker(stream: Bytes) {
    1 <= |Leftover(stream)| < MARKER
  }

  ghost predicate NoCutInMarker(t: Cut) {
    forall j :: 0 < j < |t| && t[j].1 ==> !EndsInMarker(Plain(t[..j]))
  }

  lemma {:induction false} SpelledInOne(m: Bytes, t: Cut)
    requires |m| == MARKER && |t| == MARKER && !t[1].1 && !t[2].1 && !t[3].1
    ensures Spelled(m, 0, t) == Plain(t)
  {
    assert t == Tag(Plain(t), t[0].1);
    SpelledTag(m, 0, Plain(t), t[0].1);
  }

  lemma {:induction false} UnsplitMarkersRight(m: Bytes, t: Cut)
    requires |m| == MARKER && NoCutInMarker(t)
    ensures MarkersRight(m, [], t)
    decreases |t|
  {
    if |t| >= MARKER {
      forall j | 1 <= j < MARKER ensures !t[j].1 {
        assert EndsInMarker(Plain(t[..j]));
      }
      SpelledInOne(m, t[..MARKER]);
      var whole := Plain(t[..MARKER]);
      assert [] + whole == whole;
      var n := FragSize(whole);
      if |t| - MARKER >= n {
        var rest := t[MARKER + n..];
        forall j | 0 < j < |rest| && rest[j].1 ensures !EndsInMarker(Plain(rest[..j])) {
          LeftoverBehind(t, n, j);
        }
        UnsplitMarkersRight(whole, rest);
        assert t[MARKER..][n..] == rest;
      }
    }
  }

  lemma LeftoverBehind(t: Cut, n: nat, j: nat)
    requires MARKER + n + j <= |t| && n == FragSize(Plain(t[..MARKER]))
    ensures Leftover(Plain(t[..MARKER + n + j])) == Leftover(Plain(t[MARKER + n..][..j]))
    ensures j < |t[MARKER + n..]| ==> t[MARKER + n..][j] == t[MARKER + n + j]
  {
    var s := Plain(t[..MARKER + n + j]);
    assert s[..MARKER] == Plain(t[..MARKER]);
    assert s[MARKER + n..] == Plain(t[MARKER + n..][..j]);
  }

  lemma {:induction false} CutIsBoundary(chunks: seq<Bytes>, j: nat) returns (i: nat)
    requires j < |Reads(chunks)| && Reads(chunks)[j].1
    ensures i < |chunks| && Plain(Reads(chunks)[..j]) == Concat(chunks[..i])
  {
    var n := |chunks[0]|;
    if j < n {
      i := 0;
      assert j == 0;
    } else {
      var rest := Reads(chunks[1..]);
      i := CutIsBoundary(chunks[1..], j - n);
      assert chunks[..i + 1][1..] == chunks[1..][..i];
      assert Reads(chunks)[..j] == Tag(chunks[0], true) + rest[..j - n];
      assert Plain(Reads(chunks)[..j]) == chunks[0] + Plain(rest[..j - n]);
      i := i + 1;
    }
  }

  // ---- what the intended machine holds is what is left of the stream

  lemma FinishLeftover(s: State, rest: Bytes)
    requires WF(s) && Complete(s)
    ensures WF(Finish(Intended, s).0) && Leftover(Ahead(s, rest)) == Leftover(Ahead(Finish(Intended, s).0, rest))
  {
    hide GetWord;
    var stream := Ahead(s, rest);
    assert stream[..MARKER] == s.marker;
    assert stream[MARKER + s.fragSize..] == rest;
    assert Ahead(Finish(Intended, s).0, rest) == rest;
  }

  lemma PassLeftover(s: State, buf: Bytes, later: Bytes)
    requires WF(s)
    ensures var p := Pass(Intended, s, buf);
            WF(p.s) && p.used <= |buf| && Leftover(Ahead(s, buf + later)) == Leftover(Ahead(p.s, buf[p.used..] + later))
  {
    hide Leftover, Copy, ReadMarker, Residual, FragSize, LastFrag, Concat;
    FragmentProgress(Intended, s, buf);
    CopyKeeps(s, buf);
    var (s1, n) := Copy(s, buf);
    assert Residual(s) + (buf + later) == Residual(s) + buf + later;
    assert Residual(s1) + (buf[n..] + later) == Residual(s1) + buf[n..] + later;
    if Complete(s1) {
      FinishLeftover(s1, buf[n..] + later);
    }
    var f := PassFragment(Intended, s, buf);
    if n < |buf| {
      MarkerUndivided(f.s, buf[n..], later);
      var m := ReadMarker(Intended, f.s, buf[n..]).1;
      assert buf[n..][m..] == buf[n + m..];
    }
  }

  lemma {:induction false} FeedLeftover(s: State, buf: Bytes, later: Bytes)
    requires WF(s)
    ensures Leftover(Ahead(s, buf + later)) == Leftover(Ahead(Feed(Intended, s, buf).0, later))
    decreases |buf|
  {
    hide Leftover, Pass, Ahead, WF;
    if buf == [] {
      assert buf + later == later;
    } else {
      PassProgress(Intended, s, buf);
      PassLeftover(s, buf, later);
      var p := Pass(Intended, s, buf);
      FeedLeftover(p.s, buf[p.used..], later);
    }
  }

  lemma {:induction false} FeedAllLeftover(s: State, chunks: seq<Bytes>)
    requires WF(s)
    ensures Leftover(Ahead(s, Concat(chunks))) == Leftover(Ahead(FeedAll(Intended, s, chunks).0, []))
    decreases |chunks|
  {
    hide Leftover, Feed, Ahead, WF;
    if chunks != [] {
      FeedLeftover(s, chunks[0], Concat(chunks[1..]));
      FeedAllLeftover(Feed(Intended, s, chunks[0]).0, chunks[1..]);
    }
  }

  /** With the next fragment still to come, the stream so far does not end inside a marker. */
  lemma InFragment(stale: Bytes, chunks: seq<Bytes>)
    requires |stale| == MARKER
    ensures FeedAll(Intended, Init(stale), chunks).0.remaining >= 0 ==> !EndsInMarker(Concat(chunks))
  {
    var s := Init(stale);
    StartInStep(stale, chunks);
    FeedAllLeftover(s, chunks);
    LeftoverInFragment(FeedAll(Intended, s, chunks).0);
  }

  lemma LeftoverInFragment(s: State)
    requires WF(s)
    ensures s.remaining >= 0 ==> !EndsInMarker(Ahead(s, []))
  {
    hide GetWord;
    var r := Ahead(s, []);
    if s.remaining >= 0 {
      assert r[..MARKER] == s.marker;
      if s.remaining == 0 {
        assert r[MARKER + s.fragSize..] == [];
        assert Leftover(r) == Leftover([]) == [];
      }
    }
  }

  /** The same for the cuts themselves: whenever no read but the last ends inside a marker. */
  lemma UnsplitYieldsRecordsIff(stale: Bytes, chunks: seq<Bytes>)
    requires |stale| == MARKER && forall i :: 0 <= i < |chunks| ==> !EndsInMarker(Concat(chunks[..i]))
    ensures var (s, out) := FeedAll(AsWritten, Init(stale), chunks);
            && (Messages(out) + Withheld(s) == Records(Concat(chunks), []) <==> Undivided(Concat(chunks), false))
            && (out == FeedAll(Intended, Init(stale), chunks).1 <==> Undivided(Concat(chunks), false))
  {
    hide FeedAll, MarkersRight, Undivided, Messages, Init, Reads, Withheld, EndsInMarker, Records;
    var t := Reads(chunks);
    forall j | 0 < j < |t| && t[j].1 ensures !EndsInMarker(Plain(t[..j])) {
      var i := CutIsBoundary(chunks, j);
    }
    UnsplitMarkersRight(stale, t);
    AsWrittenYieldsRecordsIff(stale, chunks);
    SameOutSameRecords(stale, chunks);
  }

  lemma SameOutSameRecords(stale: Bytes, chunks: seq<Bytes>)
    requires |stale| == MARKER && MarkersRight(stale, [], Reads(chunks))
    ensures var (s, out) := FeedAll(AsWritten, Init(stale), chunks);
            out == FeedAll(Intended, Init(stale), chunks).1 ==>
              Messages(out) + Withheld(s) == Records(Concat(chunks), [])
  {
    hide FeedAll, RightFrom, MarkersRight, Undivided, Ahead, Messages, WF, Init, Reads, Withheld, SizeKept;
    var s := Init(stale);
    StartInStep(stale, chunks);
    StepWF(s, s);
    FeedAllPair(s, s, chunks);
    SameWithheld(FeedAll(AsWritten, s, chunks).0, FeedAll(Intended, s, chunks).0);
    IntendedYieldsRecords(stale, chunks);
  }

  // ---------------------------------------------------------------------------
  // A misread marker shows
  // ---------------------------------------------------------------------------

  lemma MarkersApart(m: Bytes, m': Bytes)
    requires |m| == |m'| == MARKER && FragSize(m) == FragSize(m') && LastFrag(m) == LastFrag(m')
    ensures m == m'
  {
    SizeAndLast(m, m');
    WordsApart(m, m');
  }

  lemma SizeAndLast(m: Bytes, m': Bytes)
    requires |m| == |m'| == MARKER && FragSize(m) == FragSize(m') && LastFrag(m) == LastFrag(m')
    ensures GetWord(m) == GetWord(m')
  {
    hide GetWord;
  }

  lemma WordDigits(m: Bytes)
    requires |m| == MARKER
    ensures GetWord(m) == ((m[0] as int * 256 + m[1] as int) * 256 + m[2] as int) * 256 + m[3] as int
  {}

  lemma WordsApart(m: Bytes, m': Bytes)
    requires |m| == |m'| == MARKER && GetWord(m) == GetWord(m')
    ensures m == m'
  {
    hide GetWord;
    WordDigits(m);
    WordDigits(m');
    var a, b, c, d := m[0] as int, m[1] as int, m[2] as int, m[3] as int;
    var a', b', c', d' := m'[0] as int, m'[1] as int, m'[2] as int, m'[3] as int;
    LastDigit((a * 256 + b) * 256 + c, d, (a' * 256 + b') * 256 + c', d');
    LastDigit(a * 256 + b, c, a' * 256 + b', c');
    LastDigit(a, b, a', b');
    assert m == [m[0], m[1], m[2], m[3]] && m' == [m'[0], m'[1], m'[2], m'[3]];
  }

  lemma LastDigit(x: int, d: int, x': int, d': int)
    requires 0 <= d < 256 && 0 <= d' < 256 && x * 256 + d == x' * 256 + d'
    ensures x == x' && d == d'
  {}

  /** A marker was just read. */
  predicate Fresh(s: State) {
    WF(s) && s.remaining == s.fragSize && s.frag == []
  }

  /** A fragment of n zeros, an empty last fragment, and one byte more. */
  function Probe(n: nat): (t: Bytes)
    ensures |t| == n + 5
  {
    Zeros(n) + [0x80] + Zeros(4)
  }

  const EMPTY_LAST: Bytes := [0x80, 0, 0, 0]

  lemma ReadsWholeMarker(v: Variant, s: State, buf: Bytes)
    requires WF(s) && s.remaining < 0 && s.markerRemaining == MARKER && |buf| >= MARKER
    ensures var m := buf[..MARKER];
            ReadMarker(v, s, buf) ==
            (s.(marker := m, markerRemaining := 0, fragSize := FragSize(m), last := LastFrag(m), remaining := FragSize(m), frag := []), MARKER)
  {
    assert Overlay(s.marker, 0, buf[..MARKER]) == buf[..MARKER];
  }

  /** The fragment is filled and filed by the first pass. */
  lemma Fills(v: Variant, s: State, buf: Bytes)
    requires Fresh(s) && |buf| >= s.fragSize
    ensures var p := PassFragment(v, s, buf);
            && p.used == s.fragSize && |p.out| == (if s.last then 1 else 0)
            && WF(p.s) && p.s.remaining == -1 && p.s.markerRemaining == MARKER
  {
    hide GetWord, Concat;
    FragmentProgress(v, s, buf);
  }

  lemma ProbeFillsShort(v: Variant, s: State)
    requires Fresh(s)
    ensures |Feed(v, s, Probe(s.fragSize)).1| == (if s.last then 1 else 0) + 1
  {
    hide PassFragment, ReadMarker, FragSize, LastFrag, Concat;
    var n := s.fragSize;
    var t := Probe(n);
    Fills(v, s, t);
    var f := PassFragment(v, s, t);
    assert t[n..][..MARKER] == EMPTY_LAST;
    ReadsWholeMarker(v, f.s, t[n..]);
    EmptyLast();
    var p := Pass(v, s, t);
    PassProgress(v, s, t);
    assert Fresh(p.s) && p.s.last && p.s.fragSize == 0 && p.used == n + MARKER;
    var u := t[p.used..];
    Fills(v, p.s, u);
    PushOne(v, p.s, u);
  }

  lemma EmptyLast()
    ensures FragSize(EMPTY_LAST) == 0 && LastFrag(EMPTY_LAST)
    ensures FragSize(Zeros(4)) == 0 && !LastFrag(Zeros(4))
  {}

  /** One byte after an empty last fragment hands its record up. */
  lemma PushOne(v: Variant, s: State, u: Bytes)
    requires Fresh(s) && s.last && s.fragSize == 0 && |u| == 1
    ensures |Feed(v, s, u).1| == 1
  {
    hide PassFragment, FragSize, LastFrag, Concat;
    Fills(v, s, u);
    PassProgress(v, s, u);
    FeedInOnePass(v, s, u);
  }

  lemma ProbeLostInLong(v: Variant, s: State, n: nat)
    requires Fresh(s) && s.fragSize > n
    ensures |Feed(v, s, Probe(n)).1| <= if s.last then 1 else 0
  {
    hide FragSize, LastFrag, Concat, Probe;
    var t := Probe(n);
    PassProgress(v, s, t);
    if |t| >= s.fragSize {
      Fills(v, s, t);
      var f := PassFragment(v, s, t);
      var rest := t[s.fragSize..];
      hide PassFragment;
      if |rest| >= MARKER {
        ReadsWholeMarker(v, f.s, rest);
      }
    }
    FeedInOnePass(v, s, t);
  }

  lemma ZerosFillLast(v: Variant, s: State)
    requires Fresh(s) && s.last
    ensures |Feed(v, s, Zeros(if s.fragSize == 0 then 1 else s.fragSize)).1| == 1
  {
    hide PassFragment, FragSize, LastFrag, Concat, Zeros;
    var t := Zeros(if s.fragSize == 0 then 1 else s.fragSize);
    if s.fragSize == 0 {
      PushOne(v, s, t);
    } else {
      Fills(v, s, t);
      PassProgress(v, s, t);
      FeedInOnePass(v, s, t);
    }
  }

  lemma {:induction false} ZerosHandUpNothing(v: Variant, s: State, buf: Bytes)
    requires WF(s) && s.remaining >= 0 && !s.last && (forall j :: 0 <= j < |buf| ==> buf[j] == 0)
    ensures Feed(v, s, buf).1 == []
    decreases |buf|
  {
    if buf != [] {
      PassProgress(v, s, buf);
      ZeroPass(v, s, buf);
      hide Pass, WF;
      var p := Pass(v, s, buf);
      if p.used < |buf| {
        ZerosHandUpNothing(v, p.s, buf[p.used..]);
      } else {
        FeedInOnePass(v, s, buf);
      }
    }
  }

  lemma ZeroPass(v: Variant, s: State, buf: Bytes)
    requires WF(s) && s.remaining >= 0 && !s.last && buf != [] && (forall j :: 0 <= j < |buf| ==> buf[j] == 0)
    ensures var p := Pass(v, s, buf); p.out == [] && (p.used < |buf| ==> !p.s.last)
  {
    hide FragSize, LastFrag, Concat;
    FragmentProgress(v, s, buf);
    var f := PassFragment(v, s, buf);
    if f.used < |buf| {
      var rest := buf[f.used..];
      assert f.s.markerRemaining == MARKER;
      if |rest| >= MARKER {
        ReadsWholeMarker(v, f.s, rest);
        assert rest[..MARKER] == Zeros(4);
        EmptyLast();
      }
    }
  }

  /** After a marker was misread there are bytes on which the two hand up different numbers of records. */
  lemma MisreadShows(a: State, i: State) returns (t: Bytes)
    requires Misread(a, i)
    ensures |Feed(AsWritten, a, t).1| != |Feed(Intended, i, t).1|
  {
    hide Feed, Probe, Zeros, GetWord;
    assert Fresh(a) && Fresh(i);
    if a.last == i.last {
      if FragSize(a.marker) == FragSize(i.marker) {
        MarkersApart(a.marker, i.marker);
      }
      hide FragSize, LastFrag, WF;
      if a.fragSize < i.fragSize {
        t := Probe(a.fragSize);
        ProbeFillsShort(AsWritten, a);
        ProbeLostInLong(Intended, i, a.fragSize);
      } else {
        t := Probe(i.fragSize);
        ProbeFillsShort(Intended, i);
        ProbeLostInLong(AsWritten, a, i.fragSize);
      }
    } else if a.last {
      t := Zeros(if a.fragSize == 0 then 1 else a.fragSize);
      ZerosFillLast(AsWritten, a);
      ZerosAreZero(|t|);
      ZerosHandUpNothing(Intended, i, t);
    } else {
      t := Zeros(if i.fragSize == 0 then 1 else i.fragSize);
      ZerosFillLast(Intended, i);
      ZerosAreZero(|t|);
      ZerosHandUpNothing(AsWritten, a, t);
    }
  }

  lemma ZerosAreZero(n: nat)
    ensures forall j :: 0 <= j < n ==> Zeros(n)[j] == 0
  {}

  lemma PassPrefix(v: Variant, s: State, buf: Bytes, u: nat)
    requires WF(s) && buf != [] && Pass(v, s, buf).used <= u <= |buf|
    ensures Pass(v, s, buf[..u]) == Pass(v, s, buf)
  {
    hide FragSize, LastFrag, Concat, Finish;
    if u == |buf| {
      assert buf[..u] == buf;
    } else {
      FragmentProgress(v, s, buf);
      var (s1, n) := Copy(s, buf);
      assert n <= u;
      assert Copy(s, buf[..u]) == (s1, n) by { assert buf[..u][..n] == buf[..n]; }
      var f := PassFragment(v, s, buf);
      assert PassFragment(v, s, buf[..u]) == f;
      hide PassFragment, Copy;
      if n < |buf| {
        var m := ReadMarker(v, f.s, buf[n..]).1;
        assert m >= 1 by { MarkerProgress(v, f.s, buf[n..]); }
        assert buf[..u][n..][..m] == buf[n..][..m];
      }
    }
  }

  lemma FeedAfterPass(v: Variant, s: State, buf: Bytes, u: nat)
    requires WF(s) && buf != [] && Pass(v, s, buf).used + u <= |buf|
    ensures var p := Pass(v, s, buf);
            && WF(p.s) && p.used >= 1
            && var r := Feed(v, p.s, buf[p.used..][..u]);
               Feed(v, s, buf[..p.used + u]) == (r.0, p.out + r.1)
  {
    hide Pass, WF;
    PassProgress(v, s, buf);
    var p := Pass(v, s, buf);
    PassPrefix(v, s, buf, p.used + u);
    assert buf[..p.used + u][p.used..] == buf[p.used..][..u];
  }

  /** Where in a read a marker is misread, if in this one. */
  lemma {:induction false} FeedMisread(a: State, i: State, buf: Bytes, first: bool, later: Cut) returns (u: nat, found: bool)
    requires InStep(a, i) && (later == [] || later[0].1) && !RightFrom(a, i, Tag(buf, first) + later)
    ensures u <= |buf| && |Feed(AsWritten, a, buf[..u]).1| == |Feed(Intended, i, buf[..u]).1|
    ensures found ==> Misread(Feed(AsWritten, a, buf[..u]).0, Feed(Intended, i, buf[..u]).0)
    ensures !found ==>
              && u == |buf| && InStep(Feed(AsWritten, a, buf).0, Feed(Intended, i, buf).0)
              && !RightFrom(Feed(AsWritten, a, buf).0, Feed(Intended, i, buf).0, later)
    decreases |buf|
  {
    hide Pass, RightFrom, WF, Tag, Misread, SizeKept;
    StepWF(a, i);
    if buf == [] {
      TagNothing(first, later);
      u, found := 0, false;
    } else {
      PassPair(a, i, buf, first, later);
      PassProgress(AsWritten, a, buf);
      PassProgress(Intended, i, buf);
      var pa, pi := Pass(AsWritten, a, buf), Pass(Intended, i, buf);
      var n := pi.used;
      if InStep(pa.s, pi.s) {
        TagRest(buf, first, n, later);
        u, found := FeedMisread(pa.s, pi.s, buf[n..], first && n == 0, later);
      } else {
        u, found := 0, true;
      }
      FeedAfterPass(AsWritten, a, buf, u);
      FeedAfterPass(Intended, i, buf, u);
      u := n + u;
      assert buf[..|buf|] == buf;
    }
  }

  lemma RightAtEnd(a: State, i: State)
    requires WF(a) && WF(i)
    ensures RightFrom(a, i, [])
  {}

  lemma FeedTwo(v: Variant, s: State, b: Bytes, t: Bytes)
    requires WF(s)
    ensures FeedAll(v, s, [b, t]).1 == Feed(v, s, b).1 + Feed(v, Feed(v, s, b).0, t).1
  {
    hide Feed, WF;
    assert [b, t][1..] == [t] && [t][1..] == [];
    var (s1, o1) := Feed(v, s, b);
    var (s2, o2) := Feed(v, s1, t);
    assert FeedAll(v, s2, []) == (s2, []);
    assert FeedAll(v, s1, [t]) == (s2, o2 + []);
    assert o2 + [] == o2;
  }

  lemma {:induction false} FeedAllMisread(a: State, i: State, chunks: seq<Bytes>) returns (pre: seq<Bytes>, t: Bytes)
    requires InStep(a, i) && !RightFrom(a, i, Reads(chunks))
    ensures Reads(pre) <= Reads(chunks) && FeedAll(Intended, i, pre).0.remaining >= 0
    ensures |FeedAll(AsWritten, a, pre + [t]).1| != |FeedAll(Intended, i, pre + [t]).1|
    decreases |chunks|
  {
    hide Feed, RightFrom, WF, Tag, Misread, SizeKept;
    StepWF(a, i);
    RightAtEnd(a, i);
    if chunks == [] {
      assert false;
    } else {
      var b, later := chunks[0], Reads(chunks[1..]);
      ReadsStart(chunks[1..]);
      var u, found := FeedMisread(a, i, b, true, later);
      assert b[..|b|] == b;
      if found {
        var x, y := Feed(AsWritten, a, b[..u]), Feed(Intended, i, b[..u]);
        t := MisreadShows(x.0, y.0);
        pre := [b[..u]];
        FeedTwo(AsWritten, a, b[..u], t);
        FeedTwo(Intended, i, b[..u], t);
        FeedOne(Intended, i, b[..u]);
        MisreadInFragment(x.0, y.0);
        assert pre + [t] == [b[..u], t];
        ReadsOfPart(b, u, chunks[1..]);
      } else {
        var x, y := Feed(AsWritten, a, b), Feed(Intended, i, b);
        var more;
        more, t := FeedAllMisread(x.0, y.0, chunks[1..]);
        pre := [b] + more;
        assert (pre + [t])[1..] == more + [t] && pre[1..] == more;
      }
    }
  }

  lemma ReadsOfPart(b: Bytes, u: nat, more: seq<Bytes>)
    requires u <= |b|
    ensures Reads([b[..u]]) <= Reads([b] + more)
  {
    assert Reads([b[..u]]) == Tag(b[..u], true) + Reads([b[..u]][1..]);
    assert Tag(b[..u], true) == Tag(b, true)[..u];
    assert ([b] + more)[1..] == more;
  }

  lemma FeedOne(v: Variant, s: State, b: Bytes)
    requires WF(s)
    ensures FeedAll(v, s, [b]).0 == Feed(v, s, b).0
  {
    hide Feed, WF;
    assert [b][1..] == [];
  }

  lemma MisreadInFragment(a: State, i: State)
    requires Misread(a, i)
    ensures i.remaining >= 0
  {}

  /**
   Wherever a marker of a stream is misread: after the reads so far, cut at the end of that
   marker, there is a next read on which the code hands up another number of records than it
   should.
   */
  lemma MisreadMarkerShows(stale: Bytes, chunks: seq<Bytes>) returns (pre: seq<Bytes>, t: Bytes)
    requires |stale| == MARKER && !MarkersRight(stale, [], Reads(chunks))
    ensures Reads(pre) <= Reads(chunks) && !EndsInMarker(Concat(pre))
    ensures |FeedAll(AsWritten, Init(stale), pre + [t]).1| != |FeedAll(Intended, Init(stale), pre + [t]).1|
  {
    hide FeedAll, RightFrom, MarkersRight, WF, Init, Reads, EndsInMarker;
    StartInStep(stale, chunks);
    StepWF(Init(stale), Init(stale));
    pre, t := FeedAllMisread(Init(stale), Init(stale), chunks);
    InFragment(stale, pre);
  }

  // ---- the converse: markers read right stay right whatever comes next

  lemma {:induction false} ReadsAppend(pre: seq<Bytes>, t: Bytes)
    ensures Reads(pre + [t]) == Reads(pre) + Tag(t, true)
  {
    if pre == [] {
      assert pre + [t] == [t] && [t][1..] == [];
    } else {
      assert (pre + [t])[1..] == pre[1..] + [t];
      ReadsAppend(pre[1..], t);
    }
  }

  lemma OneReadRight(m: Bytes, t: Cut)
    requires |m| == MARKER && forall j :: 0 < j < |t| ==> !t[j].1
    ensures MarkersRight(m, [], t)
  {
    UnsplitMarkersRight(m, t);
  }

  lemma {:induction false} RightWithNext(m: Bytes, p: Cut, t: Cut, next: Bytes)
    requires |m| == MARKER && MarkersRight(m, [], t) && p <= t && !EndsInMarker(Plain(p))
    ensures MarkersRight(m, [], p + Tag(next, true))
    decreases |p|
  {
    hide GetWord, Spelled;
    var q := p + Tag(next, true);
    if |p| < MARKER {
      assert p == [];
      assert q == Tag(next, true);
      OneReadRight(m, q);
    } else {
      assert p[..MARKER] == t[..MARKER] == q[..MARKER];
      var whole := Plain(p[..MARKER]);
      assert [] + whole == whole;
      var n := FragSize(whole);
      var rest := q[MARKER..];
      if |p| < MARKER + n {
        if |rest| >= n {
          assert rest[n..] == Tag(next, true)[MARKER + n - |p|..];
          OneReadRight(whole, rest[n..]);
        }
      } else {
        var p', t' := p[MARKER + n..], t[MARKER + n..];
        LeftoverBehind(p, n, |p'|);
        assert p[..|p|] == p && p'[..|p'|] == p';
        assert t[MARKER..][n..] == t';
        RightWithNext(whole, p', t', next);
        assert rest[n..] == p' + Tag(next, true);
      }
    }
  }

  /** The machines hand up equally many records on the reads so far and any next one. */
  ghost predicate KeepsCount(stale: Bytes, pre: seq<Bytes>, next: Bytes)
    requires |stale| == MARKER
  {
    |FeedAll(AsWritten, Init(stale), pre + [next]).1| == |FeedAll(Intended, Init(stale), pre + [next]).1|
  }

  /**
   The markers of a stream and its cuts are read right exactly when, after every part of the
   stream that does not end inside a marker, and whatever the next read brings, the code hands
   up as many records as it should.
   */
  lemma MarkersRightIff(stale: Bytes, chunks: seq<Bytes>)
    requires |stale| == MARKER
    ensures MarkersRight(stale, [], Reads(chunks)) <==>
            forall pre, next :: Reads(pre) <= Reads(chunks) && !EndsInMarker(Concat(pre)) ==> KeepsCount(stale, pre, next)
  {
    hide MarkersRight, Reads, EndsInMarker, KeepsCount;
    if MarkersRight(stale, [], Reads(chunks)) {
      forall pre, next | Reads(pre) <= Reads(chunks) && !EndsInMarker(Concat(pre))
        ensures KeepsCount(stale, pre, next)
      {
        RightKeepsCount(stale, chunks, pre, next);
      }
    } else {
      var pre, next := MisreadMarkerShows(stale, chunks);
      LostCount(stale, pre, next);
    }
  }

  lemma LostCount(stale: Bytes, pre: seq<Bytes>, next: Bytes)
    requires |stale| == MARKER
    requires |FeedAll(AsWritten, Init(stale), pre + [next]).1| != |FeedAll(Intended, Init(stale), pre + [next]).1|
    ensures !KeepsCount(stale, pre, next)
  {}

  lemma RightKeepsCount(stale: Bytes, chunks: seq<Bytes>, pre: seq<Bytes>, next: Bytes)
    requires |stale| == MARKER && MarkersRight(stale, [], Reads(chunks))
    requires Reads(pre) <= Reads(chunks) && !EndsInMarker(Concat(pre))
    ensures KeepsCount(stale, pre, next)
  {
    hide FeedAll, RightFrom, MarkersRight, Undivided, Ahead, Messages, WF, Init, Reads, EndsInMarker, SizeKept;
    PlainReads(pre);
    RightWithNext(stale, Reads(pre), Reads(chunks), next);
    ReadsAppend(pre, next);
    StartInStep(stale, pre + [next]);
    StepWF(Init(stale), Init(stale));
    FeedAllPair(Init(stale), Init(stale), pre + [next]);
  }
}
