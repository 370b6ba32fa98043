/**
 rpc_record_state of src/clnt_tcp_nb.c as an object whose fields the receiving loop updates in
 place, proved to compute the machine of RecordMarking in either variant.

 The records handed up are collected and returned in order; the source calls call_user_cb at
 that point, which does not touch these fields except through the collating done here.
 */
module RecordReader {
  import opened Base
  import opened RecordMarking

  class Reader {
    const variant: Variant
    var frags: seq<Bytes>
    var recordSize: nat
    var remaining: int
    var fragBuf: array<byte>
    var fragSize: nat
    var offset: nat
    var markerRemaining: nat
    const marker: array<byte>
    var last: bool

    ghost predicate Shaped()
      reads this
    {
      marker.Length == MARKER && fragBuf != marker && offset <= fragBuf.Length
    }

    ghost function View(): State
      requires Shaped()
      reads this, fragBuf, marker
    {
      State(frags, recordSize, remaining, fragBuf[..offset], fragSize, markerRemaining, marker[..], last)
    }

    ghost predicate Valid()
      reads this, fragBuf, marker
    {
      Shaped() && WF(View()) && (remaining >= 0 ==> fragBuf.Length == fragSize)
    }

    /** The part of clnttcp_b_create that sets up the record state. */
    constructor (variant: Variant)
      ensures Valid() && fresh(marker) && fresh(fragBuf) && this.variant == variant
      ensures View() == Init(marker[..])
    {
      this.variant := variant;
      frags, recordSize, remaining := [], 0, -1;
      fragSize, offset, markerRemaining, last := 0, 0, MARKER, false;
      fragBuf := new byte[0];
      marker := new byte[MARKER];
    }

    /** memcpy into the current fragment. */
    method Copy(buf: Bytes) returns (n: nat)
      requires Valid()
      modifies `offset, `remaining, fragBuf
      ensures Shaped() && (View(), n) == RecordMarking.Copy(old(View()), buf)
      ensures remaining >= 0 ==> fragBuf.Length == fragSize
    {
      n := 0;
      if remaining > 0 {
        n := if |buf| < remaining then |buf| else remaining;
        for i := 0 to n
          modifies fragBuf
          invariant fragBuf[..offset] == old(fragBuf[..offset])
          invariant forall k :: 0 <= k < i ==> fragBuf[offset + k] == buf[k]
        {
          fragBuf[offset + i] := buf[i];
        }
        assert fragBuf[..offset + n] == old(fragBuf[..offset]) + buf[..n];
        remaining := remaining - n;
        offset := offset + n;
      }
    }

    /** collate_buf_list: the fragments one after the other, in a buffer of recordSize bytes. */
    method Collate() returns (d: Delivery)
      modifies `frags
      ensures var whole := Concat(old(frags));
              d == Delivery(whole[..Min(recordSize, |whole|)], |whole| > recordSize)
      ensures frags == []
    {
      var whole: Bytes := [];
      while frags != []
        modifies `frags
        invariant whole + Concat(frags) == Concat(old(frags))
        decreases |frags|
      {
        whole := whole + frags[0];
        frags := frags[1..];
      }
      d := Delivery(whole[..Min(recordSize, |whole|)], |whole| > recordSize);
    }

    /** update_record_state. */
    method Finish() returns (out: seq<Delivery>)
      requires Shaped() && RecordMarking.Complete(View())
      modifies `frags, `recordSize, `markerRemaining, `remaining
      ensures Shaped() && (View(), out) == RecordMarking.Finish(variant, old(View()))
    {
      out := [];
      frags := frags + [fragBuf[..offset]];
      recordSize := recordSize + fragSize;
      var keep := variant == Intended && !last;
      if last {
        var d := Collate();
        out := [d];
      }
      markerRemaining, remaining := MARKER, -1;
      if !keep {
        recordSize := 0;
      }
    }

    /** memcpy into the marker buffer, where the variant puts it. */
    method FillMarker(buf: Bytes, n: nat, at: nat)
      requires n <= |buf| && at + n <= marker.Length
      modifies marker
      ensures marker[..] == Overlay(old(marker[..]), at, buf[..n])
    {
      for i := 0 to n
        modifies marker
        invariant marker[..] == Overlay(old(marker[..]), at, buf[..i])
      {
        marker[at + i] := buf[i];
        assert buf[..i + 1] == buf[..i] + [buf[i]];
      }
    }

    /** update_new_frag_state. */
    method ReadMarker(buf: Bytes) returns (n: nat)
      requires Shaped() && WF(View()) && remaining < 0
      modifies `markerRemaining, `fragSize, `last, `fragBuf, `remaining, `offset, marker
      ensures Valid() && (View(), n) == RecordMarking.ReadMarker(variant, old(View()), buf)
      ensures fragBuf == old(fragBuf) || fresh(fragBuf)
    {
      hide GetWord;
      n := if |buf| < markerRemaining then |buf| else markerRemaining;
      FillMarker(buf, n, if variant == Intended then MARKER - markerRemaining else 0);
      markerRemaining := markerRemaining - n;
      if markerRemaining == 0 {
        var m := marker[..];
        fragSize, last := FragSize(m), LastFrag(m);
        fragBuf := new byte[fragSize];
        remaining, offset := fragSize, 0;
      }
    }

    /** One pass of the loop of update_frag_state. */
    method DoPass(buf: Bytes) returns (used: nat, out: seq<Delivery>)
      requires Valid() && buf != []
      modifies this, fragBuf, marker
      ensures Valid() && (fragBuf == old(fragBuf) || fresh(fragBuf))
      ensures Passed(View(), used, out) == Pass(variant, old(View()), buf)
    {
      hide FragSize, LastFrag, RecordMarking.ReadMarker;
      FragmentProgress(variant, View(), buf);
      used := Copy(buf);
      out := [];
      if offset == fragSize && remaining == 0 {
        out := Finish();
      }
      if used < |buf| {
        var n := ReadMarker(buf[used..]);
        used := used + n;
      }
    }

    /** update_frag_state. */
    method Feed(buf: Bytes) returns (out: seq<Delivery>)
      requires Valid()
      modifies this, fragBuf, marker
      ensures Valid() && (fragBuf == old(fragBuf) || fresh(fragBuf))
      ensures (View(), out) == RecordMarking.Feed(variant, old(View()), buf)
    {
      hide Pass, WF;
      out := [];
      var consumed := 0;
      assert buf[0..] == buf;
      assert out + RecordMarking.Feed(variant, View(), buf).1 == RecordMarking.Feed(variant, View(), buf).1;
      while consumed < |buf|
        invariant consumed <= |buf| && Valid() && (fragBuf == old(fragBuf) || fresh(fragBuf))
        invariant var (s, more) := RecordMarking.Feed(variant, View(), buf[consumed..]);
                  RecordMarking.Feed(variant, old(View()), buf) == (s, out + more)
        decreases |buf| - consumed
      {
        var rest := buf[consumed..];
        PassProgress(variant, View(), rest);
        var used, handed := DoPass(rest);
        assert buf[consumed + used..] == rest[used..];
        ghost var more := RecordMarking.Feed(variant, View(), rest[used..]).1;
        assert out + (handed + more) == (out + handed) + more;
        out := out + handed;
        consumed := consumed + used;
      }
      assert buf[consumed..] == [] && out + [] == out;
    }
  }
}
