/** The ring-log encoding used by Flash_LogLine_Ring5 (Src/spi_flash.c): the old
    payload is cut after each '\n' into at most five segments, and the new payload is
    the new line followed by as many of the first four old segments as fit in the
    256-byte buffer, stopping at the first one that does not fit. */
module RingLog {
  import opened Bytes

  const NL: byte := 10
  const LOG_RING_LINES: nat := 5
  const OUT_CAP: nat := 256

  function Concat(ss: seq<seq<byte>>): (r: seq<byte>)
  {
    if ss == [] then [] else ss[0] + Concat(ss[1..])
  }

  lemma {:induction false} ConcatAppend(a: seq<seq<byte>>, b: seq<seq<byte>>)
    ensures Concat(a + b) == Concat(a) + Concat(b)
  {
    if a == [] {
      assert a + b == b;
    } else {
      assert (a + b)[0] == a[0];
      assert (a + b)[1..] == a[1..] + b;
      ConcatAppend(a[1..], b);
    }
  }

  /** A segment as the scan produces it: it ends with its only '\n', or it is a
      final fragment without any '\n'. */
  predicate IsLineSeg(s: seq<byte>)
  {
    0 < |s| && s[|s| - 1] == NL && NL !in s[..|s| - 1]
  }

  predicate IsFragment(s: seq<byte>)
  {
    0 < |s| && NL !in s
  }

  /** The old payload cut after each '\n', at most `max` segments; a trailing
      unterminated fragment counts as a segment. */
  function Segments(s: seq<byte>, max: nat): (r: seq<seq<byte>>)
    ensures |r| <= max
    decreases max
  {
    if max == 0 || |s| == 0 then []
    else
      var k := IndexOf(s, NL);
      if k < |s| then [s[..k + 1]] + Segments(s[k + 1..], max - 1) else [s]
  }

  /** The segments are an in-order prefix cut of the payload, and the whole
      payload unless the segment budget ran out. */
  lemma {:induction false} SegmentsCut(s: seq<byte>, max: nat)
    ensures Concat(Segments(s, max)) <= s
    ensures |Segments(s, max)| < max ==> Concat(Segments(s, max)) == s
    decreases max
  {
    if max > 0 && |s| > 0 {
      var k := IndexOf(s, NL);
      if k < |s| {
        var head, tail := s[..k + 1], s[k + 1..];
        SegmentsCut(tail, max - 1);
        var rs := Segments(tail, max - 1);
        assert Segments(s, max) == [head] + rs;
        assert s == head + tail;
        CutCons(head, tail, rs, max - 1);
      } else {
        assert Segments(s, max) == [s];
        ConcatCons(s, []);
        assert s + Concat([]) == s;
      }
    }
  }

  lemma CutCons(head: seq<byte>, tail: seq<byte>, rs: seq<seq<byte>>, m: nat)
    requires Concat(rs) <= tail && (|rs| < m ==> Concat(rs) == tail)
    ensures Concat([head] + rs) <= head + tail
    ensures |[head] + rs| < m + 1 ==> Concat([head] + rs) == head + tail
  {
    ConcatCons(head, rs);
    PrefixCons(head, Concat(rs), tail);
  }

  lemma PrefixCons<T>(h: seq<T>, a: seq<T>, b: seq<T>)
    requires a <= b
    ensures h + a <= h + b
  {
    assert (h + b)[..|h + a|] == h + a;
  }

  /** Each segment ends with its only '\n', except possibly a final fragment. */
  predicate WellCut(r: seq<seq<byte>>)
  {
    forall j :: 0 <= j < |r| ==> IsLineSeg(r[j]) || (j == |r| - 1 && IsFragment(r[j]))
  }

  lemma {:induction false} SegmentsShape(s: seq<byte>, max: nat)
    ensures WellCut(Segments(s, max))
    decreases max
  {
    var r := Segments(s, max);
    if max > 0 && |s| > 0 {
      var k := IndexOf(s, NL);
      IndexOfSpec(s, NL);
      if k < |s| {
        var head, tail := s[..k + 1], s[k + 1..];
        assert head[..k] == s[..k];
        assert IsLineSeg(head);
        SegmentsShape(tail, max - 1);
        var rs := Segments(tail, max - 1);
        assert r == [head] + rs;
        forall i | 0 <= i < |r|
          ensures IsLineSeg(r[i]) || (i == |r| - 1 && IsFragment(r[i]))
        {
          if i == 0 {
            assert r[i] == head;
          } else {
            assert r[i] == rs[i - 1];
          }
        }
      } else {
        assert r == [s];
        assert NL !in s;
      }
    }
  }


  /** How many of the leading segments are kept after `used` bytes of output, with
      room for `k` more segments: the count stops at the first segment that would
      not fit (a `break`, not a skip). */
  function Kept(used: nat, segs: seq<seq<byte>>, k: nat): (j: nat)
    ensures j <= k && j <= |segs|
    decreases k
  {
    if k == 0 || segs == [] || used + |segs[0]| > OUT_CAP then 0
    else 1 + Kept(used + |segs[0]|, segs[1..], k - 1)
  }

  /** The kept segments fit in the buffer, and the count stops only at the budget
      of segments, at the end of the list, or at a segment that would overflow. */
  lemma {:induction false} KeptFits(used: nat, segs: seq<seq<byte>>, k: nat)
    requires used <= OUT_CAP
    ensures var j := Kept(used, segs, k);
      && used + |Concat(segs[..j])| <= OUT_CAP
      && (j < k && j < |segs| ==> used + |Concat(segs[..j])| + |segs[j]| > OUT_CAP)
    decreases k
  {
    var j := Kept(used, segs, k);
    if k == 0 || segs == [] || used + |segs[0]| > OUT_CAP {
      assert segs[..0] == [];
    } else {
      var j' := Kept(used + |segs[0]|, segs[1..], k - 1);
      KeptFits(used + |segs[0]|, segs[1..], k - 1);
      assert segs[..j' + 1] == [segs[0]] + segs[1..][..j'];
      assert Concat(segs[..j' + 1]) == segs[0] + Concat(segs[1..][..j']);
      if j < k && j < |segs| {
        assert segs[j] == segs[1..][j'];
      }
    }
  }

  /** The new payload: the (already clamped) new line, then the kept old segments
      of a valid old payload, or nothing when the old entry is invalid. */
  function RingPayload(line: seq<byte>, prev: Option<seq<byte>>): (r: seq<byte>)
  {
    Compose(line, OldSegments(prev))
  }

  /** The segments of the old payload; none when the old entry was not valid. */
  function OldSegments(prev: Option<seq<byte>>): (segs: seq<seq<byte>>)
    ensures |segs| <= LOG_RING_LINES
  {
    if prev.Some? then Segments(prev.value, LOG_RING_LINES) else []
  }

  /** The line followed by the old segments the output loop copies. */
  function Compose(line: seq<byte>, segs: seq<seq<byte>>): seq<byte>
  {
    line + Concat(segs[..Kept(|line|, segs, LOG_RING_LINES - 1)])
  }

  /** What the output promises: it starts with the new line, continues with an
      in-order prefix of at most four old segments that stops at the first one that
      would overflow, and stays within 256 bytes. */
  lemma RingPayloadShape(line: seq<byte>, prev: Option<seq<byte>>)
    requires |line| <= OUT_CAP
    ensures var r := RingPayload(line, prev);
      var segs := OldSegments(prev);
      var j := Kept(|line|, segs, LOG_RING_LINES - 1);
      && |r| <= OUT_CAP
      && r[..|line|] == line
      && j <= 4 && j <= |segs|
      && r == line + Concat(segs[..j])
      && (j < 4 && j < |segs| ==> |r| + |segs[j]| > OUT_CAP)
      && (prev.Some? ==> Concat(segs) <= prev.value)
  {
    var segs := OldSegments(prev);
    KeptFits(|line|, segs, LOG_RING_LINES - 1);
    if prev.Some? {
      SegmentsCut(prev.value, LOG_RING_LINES);
    }
  }

  /** The payload never exceeds the 256-byte data field. */
  lemma RingPayloadBound(line: seq<byte>, prev: Option<seq<byte>>)
    requires |line| <= OUT_CAP
    ensures |RingPayload(line, prev)| <= OUT_CAP
  {
    KeptFits(|line|, OldSegments(prev), LOG_RING_LINES - 1);
  }

  /** With an invalid old entry the payload is just the new line. */
  lemma RingPayloadFresh(line: seq<byte>)
    ensures RingPayload(line, None) == line
  {
    var segs: seq<seq<byte>> := [];
    assert segs[..Kept(|line|, segs, 4)] == [];
  }

  // ---------------------------------------------------------------------------
  // Appending many well-formed lines keeps exactly the five newest, newest first.

  /** A well-formed log line: at most 50 bytes, ending with its only '\n', and not
      starting with the erased-flash byte 0xFF (which would invalidate the entry). */
  predicate GoodLine(l: seq<byte>)
  {
    IsLineSeg(l) && |l| <= 50 && l[0] != 0xFF
  }

  lemma {:induction false} SegmentsOfLines(ls: seq<seq<byte>>, rest: seq<byte>, max: nat)
    requires forall i :: 0 <= i < |ls| ==> IsLineSeg(ls[i])
    requires |ls| <= max
    ensures Segments(Concat(ls) + rest, max) == ls + Segments(rest, max - |ls|)
  {
    if ls == [] {
      assert Concat(ls) + rest == rest;
    } else {
      SegmentsOfLines(ls[1..], rest, max - 1);
      SegmentsOfLinesStep(ls, rest, max, Segments(rest, max - |ls|));
    }
  }

  lemma SegmentsOfLinesStep(ls: seq<seq<byte>>, rest: seq<byte>, max: nat, tail: seq<seq<byte>>)
    requires ls != [] && IsLineSeg(ls[0]) && max > 0
    requires Segments(Concat(ls[1..]) + rest, max - 1) == ls[1..] + tail
    ensures Segments(Concat(ls) + rest, max) == ls + tail
  {
    var l, t := ls[0], Concat(ls[1..]) + rest;
    assert Concat(ls) + rest == l + t;
    SegmentsCons(l, t, max);
    ConsSplit(ls, tail);
  }

  lemma ConsSplit<T>(a: seq<T>, b: seq<T>)
    requires a != []
    ensures [a[0]] + (a[1..] + b) == a + b
  {
    assert a == [a[0]] + a[1..];
  }

  /** A complete line at the front of the payload is the first segment. */
  lemma SegmentsCons(l: seq<byte>, t: seq<byte>, max: nat)
    requires IsLineSeg(l) && max > 0
    ensures Segments(l + t, max) == [l] + Segments(t, max - 1)
  {
    var s := l + t;
    IndexOfPrefix(l, t);
    assert s[..|l|] == l;
    assert s[|l|..] == t;
  }

  lemma IndexOfPrefix(l: seq<byte>, t: seq<byte>)
    requires IsLineSeg(l)
    ensures IndexOf(l + t, NL) == |l| - 1
  {
    var s := l + t;
    assert forall j :: 0 <= j < |l| - 1 ==> s[j] == l[j] && l[j] in l[..|l| - 1];
    assert s[|l| - 1] == NL;
    IndexOfUnique(s, NL, |l| - 1);
  }

  lemma {:induction false} KeptOfLines(used: nat, ls: seq<seq<byte>>, more: seq<seq<byte>>, k: nat)
    requires |ls| <= k
    requires used + |Concat(ls)| <= OUT_CAP
    ensures Kept(used, ls + more, k) == |ls| + Kept(used + |Concat(ls)|, more, k - |ls|)
    decreases |ls|
  {
    if ls == [] {
      assert ls + more == more;
    } else {
      var x, tl := ls[0], ls[1..];
      var u', k' := used + |Concat(ls)|, k - |ls|;
      var rest := Kept(used + |x|, tl + more, k - 1);
      assert Kept(used, ls + more, k) == 1 + rest by {
        ConsSplit(ls, more);
        KeptCons(used, x, tl + more, k);
      }
      assert rest == |tl| + Kept(u', more, k') by {
        assert |Concat(ls)| == |x| + |Concat(tl)|;
        KeptOfLines(used + |x|, tl, more, k - 1);
        assert used + |x| + |Concat(tl)| == u' && k - 1 - |tl| == k';
      }
    }
  }

  /** A segment that fits is counted, and the count goes on after it. */
  lemma KeptCons(used: nat, x: seq<byte>, rest: seq<seq<byte>>, k: nat)
    requires k > 0 && used + |x| <= OUT_CAP
    ensures Kept(used, [x] + rest, k) == 1 + Kept(used + |x|, rest, k - 1)
  {
    assert ([x] + rest)[1..] == rest;
  }

  lemma {:induction false} ConcatLength(ls: seq<seq<byte>>, n: nat)
    requires forall i :: 0 <= i < |ls| ==> |ls[i]| <= n
    ensures |Concat(ls)| <= n * |ls|
  {
    if ls != [] {
      ConcatLength(ls[1..], n);
    }
  }

  /** Appending onto fewer than five recent lines keeps them all, followed by
      whatever part of the older tail still fits. */
  lemma AppendShort(line: seq<byte>, recent: seq<seq<byte>>, rest: seq<byte>)
    requires GoodLine(line)
    requires forall i :: 0 <= i < |recent| ==> GoodLine(recent[i])
    requires |recent| <= 4
    ensures var more := Segments(rest, 5 - |recent|);
      var t := Kept(|line| + |Concat(recent)|, more, 4 - |recent|);
      RingPayload(line, Some(Concat(recent) + rest)) == Concat([line] + recent) + Concat(more[..t])
  {
    var more := Segments(rest, 5 - |recent|);
    var t := Kept(|line| + |Concat(recent)|, more, 4 - |recent|);
    SegmentsOfLines(recent, rest, 5);
    PayloadVia(line, Concat(recent) + rest, recent + more);
    GoodLinesFit(recent);
    ComposeSplit(line, recent, more);
    ConcatCons(line, recent);
    Assoc(line, Concat(recent), Concat(more[..t]));
  }

  lemma ConcatCons(x: seq<byte>, ss: seq<seq<byte>>)
    ensures Concat([x] + ss) == x + Concat(ss)
  {
    assert ([x] + ss)[1..] == ss;
  }

  lemma PayloadVia(line: seq<byte>, p: seq<byte>, segs: seq<seq<byte>>)
    requires Segments(p, LOG_RING_LINES) == segs
    ensures RingPayload(line, Some(p)) == Compose(line, segs)
  {
  }

  /** Composing onto segments that start with `recent`, when the line and all of
      `recent` fit: `recent` is copied whole, then the loop goes on into `more`. */
  lemma ComposeSplit(line: seq<byte>, recent: seq<seq<byte>>, more: seq<seq<byte>>)
    requires |recent| <= 4 && |line| + |Concat(recent)| <= OUT_CAP
    ensures var t := Kept(|line| + |Concat(recent)|, more, 4 - |recent|);
      Compose(line, recent + more) == line + (Concat(recent) + Concat(more[..t]))
  {
    var t := Kept(|line| + |Concat(recent)|, more, 4 - |recent|);
    var segs := recent + more;
    KeptOfLines(|line|, recent, more, 4);
    assert Kept(|line|, segs, 4) == |recent| + t;
    ComposeUnfold(line, segs, |recent| + t);
    ConcatPrefixSplit(recent, more, t);
  }

  lemma ComposeUnfold(line: seq<byte>, segs: seq<seq<byte>>, j: nat)
    requires Kept(|line|, segs, LOG_RING_LINES - 1) == j
    ensures j <= |segs| && Compose(line, segs) == line + Concat(segs[..j])
  {
  }

  lemma ConcatPrefixSplit(a: seq<seq<byte>>, b: seq<seq<byte>>, t: nat)
    requires t <= |b|
    ensures Concat((a + b)[..|a| + t]) == Concat(a) + Concat(b[..t])
  {
    assert (a + b)[..|a| + t] == a + b[..t];
    ConcatAppend(a, b[..t]);
  }

  /** Appending onto five recent lines (and nothing else) drops the oldest. */
  lemma AppendFull(line: seq<byte>, recent: seq<seq<byte>>)
    requires GoodLine(line)
    requires forall i :: 0 <= i < |recent| ==> GoodLine(recent[i])
    requires |recent| == 5
    ensures RingPayload(line, Some(Concat(recent))) == Concat([line] + recent[..4])
  {
    SegmentsOfWhole(recent, 5);
    var head := recent[..4];
    GoodLinesFit(head);
    assert recent == head + recent[4..];
    ComposeFull(line, head, recent[4..]);
    ConcatCons(line, head);
  }

  /** Complete lines, no more than the budget, are cut back into exactly themselves. */
  lemma SegmentsOfWhole(ls: seq<seq<byte>>, max: nat)
    requires forall i :: 0 <= i < |ls| ==> IsLineSeg(ls[i])
    requires |ls| <= max
    ensures Segments(Concat(ls), max) == ls
  {
    SegmentsOfLines(ls, [], max);
    assert Concat(ls) + [] == Concat(ls);
    assert Segments([], max - |ls|) == [];
    assert ls + [] == ls;
  }

  /** Four well-formed lines take at most 200 bytes. */
  lemma GoodLinesFit(ls: seq<seq<byte>>)
    requires forall i :: 0 <= i < |ls| ==> GoodLine(ls[i])
    requires |ls| <= 4
    ensures |Concat(ls)| <= 200
  {
    ConcatLength(ls, 50);
    assert 50 * |ls| <= 200;
  }

  /** With four segments already copied, no further segment is copied. */
  lemma ComposeFull(line: seq<byte>, head: seq<seq<byte>>, more: seq<seq<byte>>)
    requires |head| == 4 && |line| + |Concat(head)| <= OUT_CAP
    ensures Compose(line, head + more) == line + Concat(head)
  {
    ComposeSplit(line, head, more);
    var none: seq<seq<byte>> := [];
    assert more[..0] == none;
    assert Concat(head) + Concat(none) == Concat(head);
  }

  /** One append onto a payload that is `recent` (well-formed lines, newest first)
      followed by `rest`, where `rest` is empty once five lines are recent: the new
      payload starts with the line and the recent lines that remain among the five
      newest, and is exactly those once there are five. */
  lemma AppendStep(line: seq<byte>, recent: seq<seq<byte>>, rest: seq<byte>, p: seq<byte>)
    requires GoodLine(line)
    requires forall i :: 0 <= i < |recent| ==> GoodLine(recent[i])
    requires |recent| <= 5 && (|recent| == 5 ==> rest == [])
    requires p == RingPayload(line, Some(Concat(recent) + rest))
    ensures var recent' := ([line] + recent)[..Min(|recent| + 1, 5)];
      && Concat(recent') <= p
      && (|recent'| == 5 ==> p == Concat(recent'))
      && |p| <= OUT_CAP
  {
    if |recent| <= 4 {
      assert ([line] + recent)[..Min(|recent| + 1, 5)] == [line] + recent;
      AppendStepShort(line, recent, rest);
    } else {
      assert ([line] + recent)[..Min(|recent| + 1, 5)] == [line] + recent[..4];
      assert Concat(recent) + rest == Concat(recent);
      AppendStepFull(line, recent);
    }
  }

  lemma AppendStepShort(line: seq<byte>, recent: seq<seq<byte>>, rest: seq<byte>)
    requires GoodLine(line)
    requires forall i :: 0 <= i < |recent| ==> GoodLine(recent[i])
    requires |recent| <= 4
    ensures var p := RingPayload(line, Some(Concat(recent) + rest));
      && Concat([line] + recent) <= p
      && (|recent| == 4 ==> p == Concat([line] + recent))
      && |p| <= OUT_CAP
  {
    RingPayloadBound(line, Some(Concat(recent) + rest));
    AppendShort(line, recent, rest);
    var more := Segments(rest, 5 - |recent|);
    var t := Kept(|line| + |Concat(recent)|, more, 4 - |recent|);
    if |recent| == 4 {
      assert more[..t] == [];
      assert Concat([line] + recent) + Concat(more[..t]) == Concat([line] + recent);
    }
  }

  lemma AppendStepFull(line: seq<byte>, recent: seq<seq<byte>>)
    requires GoodLine(line)
    requires forall i :: 0 <= i < |recent| ==> GoodLine(recent[i])
    requires |recent| == 5
    ensures RingPayload(line, Some(Concat(recent))) == Concat([line] + recent[..4])
    ensures |RingPayload(line, Some(Concat(recent)))| <= OUT_CAP
  {
    RingPayloadBound(line, Some(Concat(recent)));
    AppendFull(line, recent);
  }

  lemma Assoc<T>(a: seq<T>, b: seq<T>, c: seq<T>)
    ensures a + (b + c) == (a + b) + c
  {
  }

  /** The last `n` lines, newest first. */
  function Newest(lines: seq<seq<byte>>, n: nat): (r: seq<seq<byte>>)
    ensures |r| == Min(|lines|, n)
    ensures forall i :: 0 <= i < |r| ==> r[i] == lines[|lines| - 1 - i]
  {
    if lines == [] || n == 0 then [] else [lines[|lines| - 1]] + Newest(lines[..|lines| - 1], n - 1)
  }

  /** The five newest after one more line: that line, then the newest of the others. */
  lemma NewestStep(lines: seq<seq<byte>>)
    requires |lines| >= 1
    ensures var before := Newest(lines[..|lines| - 1], 5);
      Newest(lines, 5) == ([lines[|lines| - 1]] + before)[..Min(|before| + 1, 5)]
  {
    var n := |lines|;
    var before := Newest(lines[..n - 1], 5);
    var l := Newest(lines, 5);
    var r := ([lines[n - 1]] + before)[..Min(|before| + 1, 5)];
    assert |l| == |r|;
    forall i | 0 <= i < |l|
      ensures l[i] == r[i]
    {
      if i > 0 {
        assert r[i] == before[i - 1];
      }
    }
  }

  lemma NewestGood(lines: seq<seq<byte>>, n: nat)
    requires forall i :: 0 <= i < |lines| ==> GoodLine(lines[i])
    ensures forall i :: 0 <= i < |Newest(lines, n)| ==> GoodLine(Newest(lines, n)[i])
  {
    var r := Newest(lines, n);
    forall i | 0 <= i < |r|
      ensures GoodLine(r[i])
    {
      var j := |lines| - 1 - i;
      assert r[i] == lines[j];
    }
  }

  /** The payload after appending `lines` in order onto an entry whose payload is
      `init` (None: the entry was invalid). */
  function Replay(init: Option<seq<byte>>, lines: seq<seq<byte>>): seq<byte>
    requires |lines| >= 1
  {
    var prev := if |lines| == 1 then init else Some(Replay(init, lines[..|lines| - 1]));
    RingPayload(lines[|lines| - 1], prev)
  }

  /** After any number of appends the payload starts with the (up to) five newest
      lines, newest first, is exactly them once five were appended, and stays within
      the 256-byte budget. */
  lemma {:induction false} ReplayInvariant(init: Option<seq<byte>>, lines: seq<seq<byte>>)
    requires |lines| >= 1
    requires forall i :: 0 <= i < |lines| ==> GoodLine(lines[i])
    requires init.Some? ==> |init.value| <= OUT_CAP
    ensures Concat(Newest(lines, 5)) <= Replay(init, lines)
    ensures |lines| >= 5 ==> Replay(init, lines) == Concat(Newest(lines, 5))
    ensures |Replay(init, lines)| <= OUT_CAP
  {
    if |lines| == 1 {
      ReplayOne(init, lines);
    } else {
      var before := lines[..|lines| - 1];
      assert forall i :: 0 <= i < |before| ==> before[i] == lines[i];
      ReplayInvariant(init, before);
      ReplayMore(init, lines);
    }
  }

  lemma ReplayUnfold(init: Option<seq<byte>>, lines: seq<seq<byte>>)
    requires |lines| >= 2
    ensures Replay(init, lines) == RingPayload(lines[|lines| - 1], Some(Replay(init, lines[..|lines| - 1])))
  {
  }

  lemma ReplayOne(init: Option<seq<byte>>, lines: seq<seq<byte>>)
    requires |lines| == 1 && GoodLine(lines[0])
    requires init.Some? ==> |init.value| <= OUT_CAP
    ensures Concat(Newest(lines, 5)) <= Replay(init, lines)
    ensures |Replay(init, lines)| <= OUT_CAP
  {
    assert Replay(init, lines) == RingPayload(lines[0], init);
    assert Newest(lines, 5) == [lines[0]];
    ReplayFirst(init, lines[0]);
  }

  lemma ReplayMore(init: Option<seq<byte>>, lines: seq<seq<byte>>)
    requires |lines| >= 2
    requires forall i :: 0 <= i < |lines| ==> GoodLine(lines[i])
    requires var before := lines[..|lines| - 1];
      && Concat(Newest(before, 5)) <= Replay(init, before)
      && (|before| >= 5 ==> Replay(init, before) == Concat(Newest(before, 5)))
    ensures Concat(Newest(lines, 5)) <= Replay(init, lines)
    ensures |lines| >= 5 ==> Replay(init, lines) == Concat(Newest(lines, 5))
    ensures |Replay(init, lines)| <= OUT_CAP
  {
    var n := |lines|;
    var before := lines[..n - 1];
    assert forall i :: 0 <= i < |before| ==> before[i] == lines[i];
    NewestStep(lines);
    var recent := Newest(before, 5);
    NewestGood(before, 5);
    assert |recent| == 5 ==> |before| >= 5;
    ReplayUnfold(init, lines);
    ReplayNext(lines[n - 1], recent, Replay(init, before), Replay(init, lines), Newest(lines, 5));
  }

  lemma ReplayFirst(init: Option<seq<byte>>, line: seq<byte>)
    requires GoodLine(line)
    requires init.Some? ==> |init.value| <= OUT_CAP
    ensures Concat([line]) <= RingPayload(line, init)
    ensures |RingPayload(line, init)| <= OUT_CAP
  {
    var one: seq<seq<byte>> := [line];
    assert Concat(one) == line + Concat(one[1..]);
    assert one[1..] == [];
    if init.None? {
      RingPayloadFresh(line);
      assert line <= line;
    } else {
      var none: seq<seq<byte>> := [];
      assert Concat(none) + init.value == init.value;
      assert ([line] + none)[..Min(|none| + 1, 5)] == one;
      AppendStep(line, none, init.value, RingPayload(line, init));
    }
  }

  /** The invariant carried over one append: `q` is the payload before, `p` after. */
  lemma ReplayNext(line: seq<byte>, recent: seq<seq<byte>>, q: seq<byte>, p: seq<byte>, newest: seq<seq<byte>>)
    requires GoodLine(line)
    requires forall i :: 0 <= i < |recent| ==> GoodLine(recent[i])
    requires |recent| <= 5
    requires Concat(recent) <= q && (|recent| == 5 ==> q == Concat(recent))
    requires p == RingPayload(line, Some(q))
    requires newest == ([line] + recent)[..Min(|recent| + 1, 5)]
    ensures Concat(newest) <= p
    ensures |newest| == 5 ==> p == Concat(newest)
    ensures |p| <= OUT_CAP
  {
    var rest := q[|Concat(recent)|..];
    assert q == Concat(recent) + rest;
    AppendStep(line, recent, rest, p);
  }

  /** Appending N >= 5 well-formed lines leaves exactly the five newest lines,
      newest first, within the 256-byte budget, whatever the entry held before. */
  lemma FiveNewestLines(init: Option<seq<byte>>, lines: seq<seq<byte>>)
    requires |lines| >= 5
    requires forall i :: 0 <= i < |lines| ==> GoodLine(lines[i])
    requires init.Some? ==> |init.value| <= OUT_CAP
    ensures Replay(init, lines) == Concat(Newest(lines, 5))
    ensures Segments(Replay(init, lines), 5) == Newest(lines, 5)
    ensures |Replay(init, lines)| <= OUT_CAP
  {
    ReplayInvariant(init, lines);
    NewestGood(lines, 5);
    SegmentsOfWhole(Newest(lines, 5), 5);
  }
}
