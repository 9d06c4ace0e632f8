/** The inline code-span scanner of `xtask`: one Markdown line, backtick runs of equal width
    (section 6.1 of the CommonMark specification, one line at a time). */
module CodeSpans {
  import opened Words
  import opened Wrappers

  const TICK: Byte := 0x60

  type Line = seq<Byte>

  datatype Run = Run(start: nat, width: nat)

  /** Consecutive backticks from position `i`. */
  function TicksFrom(line: Line, i: nat): (w: nat)
    ensures i <= |line| ==> i + w <= |line|
    ensures forall j :: i <= j < i + w ==> j < |line| && line[j] == TICK
    ensures i + w < |line| ==> line[i + w] != TICK
    ensures w > 0 <==> i < |line| && line[i] == TICK
    decreases |line| - i
  {
    if i < |line| && line[i] == TICK then 1 + TicksFrom(line, i + 1) else 0
  }

  /** The backtick runs from position `i` on. */
  function Runs(line: Line, i: nat): seq<Run>
    decreases |line| - i
  {
    if i >= |line| then []
    else if line[i] != TICK then Runs(line, i + 1)
    else [Run(i, TicksFrom(line, i))] + Runs(line, i + TicksFrom(line, i))
  }

  /** A maximal block of backticks. */
  predicate Maximal(line: Line, r: Run) {
    && 0 < r.width && r.start + r.width <= |line|
    && (forall j :: r.start <= j < r.start + r.width ==> line[j] == TICK)
    && (r.start > 0 ==> line[r.start - 1] != TICK)
    && (r.start + r.width < |line| ==> line[r.start + r.width] != TICK)
  }

  /** `Runs` lists exactly the maximal blocks, */
  lemma {:induction false} RunsAreMaximal(line: Line, i: nat)
    requires i <= |line| && (0 < i < |line| ==> line[i - 1] != TICK || line[i] != TICK)
    ensures forall r :: r in Runs(line, i) <==> Maximal(line, r) && i <= r.start
    decreases |line| - i
  {
    if i < |line| {
      if line[i] != TICK {
        RunsAreMaximal(line, i + 1);
      } else {
        var w := TicksFrom(line, i);
        RunsAreMaximal(line, i + w);
        FirstRun(line, i, w, Runs(line, i + w));
      }
    }
  }

  /** from left to right, without overlap. */
  lemma {:induction false} RunsAscend(line: Line, i: nat)
    requires i <= |line|
    ensures forall a :: 0 <= a < |Runs(line, i)| ==> i <= Runs(line, i)[a].start
    ensures forall a, b :: 0 <= a < b < |Runs(line, i)| ==>
      Runs(line, i)[a].start + Runs(line, i)[a].width <= Runs(line, i)[b].start
    decreases |line| - i
  {
    if i < |line| {
      RunsAscend(line, if line[i] != TICK then i + 1 else i + TicksFrom(line, i));
    }
  }

  lemma FirstRun(line: Line, i: nat, w: nat, rest: seq<Run>)
    requires i < |line| && line[i] == TICK && w == TicksFrom(line, i) && (i > 0 ==> line[i - 1] != TICK)
    requires forall r :: r in rest <==> Maximal(line, r) && i + w <= r.start
    ensures forall r :: r in [Run(i, w)] + rest <==> Maximal(line, r) && i <= r.start
  {
    assert Maximal(line, Run(i, w));
    forall r
      ensures r in [Run(i, w)] + rest <==> Maximal(line, r) && i <= r.start
    {
      if Maximal(line, r) && i <= r.start < i + w {
        BlockStartsHere(line, i, w, r);
      }
    }
  }

  lemma {:induction false} BlockStartsHere(line: Line, i: nat, w: nat, r: Run)
    requires i < |line| && line[i] == TICK && w == TicksFrom(line, i)
    requires Maximal(line, r) && i <= r.start < i + w
    ensures r == Run(i, w)
  {
    var before: int, after: int, end: int := r.start - 1, i + r.width, i + w;
    if i < r.start {
      TickInRun(line, i, w, before);
    }
    if r.width < w {
      TickInRun(line, i, w, after);
    } else if w < r.width {
      TickInBlock(line, r, end);
    }
  }

  lemma {:induction false} TickInRun(line: Line, i: nat, w: nat, j: int)
    requires w == TicksFrom(line, i) && i <= j < i + w
    ensures j < |line| && line[j] == TICK
  {
  }

  lemma TickInBlock(line: Line, r: Run, j: int)
    requires Maximal(line, r) && r.start <= j < r.start + r.width
    ensures line[j] == TICK
  {
  }

  /** The first later run of the same width as `runs[0]`. */
  function Closer(runs: seq<Run>, width: nat, k: nat): Option<nat>
    decreases |runs| - k
  {
    if k >= |runs| then None
    else if runs[k].width == width then Some(k)
    else Closer(runs, width, k + 1)
  }

  lemma {:induction false} CloserIsFirst(runs: seq<Run>, width: nat, k: nat)
    ensures Closer(runs, width, k).Some? ==>
      k <= Closer(runs, width, k).value < |runs| && runs[Closer(runs, width, k).value].width == width
    ensures forall j :: k <= j < (if Closer(runs, width, k).Some? then Closer(runs, width, k).value else |runs|) ==>
      runs[j].width != width
    decreases |runs| - k
  {
    if k < |runs| && runs[k].width != width {
      CloserIsFirst(runs, width, k + 1);
    }
  }

  /** The declarative scan: an opener is closed by the next run of equal width and scanning
      resumes after the closer; an opener without one is literal text. */
  function Spans(line: Line, runs: seq<Run>): seq<Line> {
    if runs == [] then []
    else
      match Closer(runs, runs[0].width, 1)
      case None => Spans(line, runs[1..])
      case Some(k) =>
        CloserIsFirst(runs, runs[0].width, 1);
        [Slice(line, runs[0].start + runs[0].width, runs[k].start)] + Spans(line, runs[k + 1..])
  }

  function Slice(line: Line, from: nat, to: nat): Line {
    if from <= to <= |line| then line[from..to] else []
  }

  lemma {:induction false} CloserSkips(runs: seq<Run>, width: nat, k: nat, m: nat)
    requires k <= m <= |runs| && forall j :: k <= j < m ==> runs[j].width != width
    ensures Closer(runs, width, k) == Closer(runs, width, m)
    decreases m - k
  {
    if k < m {
      CloserSkips(runs, width, k + 1, m);
    }
  }

  /** No run of `skipped` has the opener's width. */
  predicate NoneCloses(skipped: seq<Run>, width: nat) {
    forall j :: 0 <= j < |skipped| ==> skipped[j].width != width
  }

  lemma {:induction false} ClosedSpan(line: Line, opener: Run, skipped: seq<Run>, closer: Run, rest: seq<Run>)
    requires NoneCloses(skipped, opener.width) && closer.width == opener.width
    ensures Spans(line, [opener] + (skipped + [closer] + rest))
      == [Slice(line, opener.start + opener.width, closer.start)] + Spans(line, rest)
  {
    var runs := [opener] + (skipped + [closer] + rest);
    var k := |skipped| + 1;
    forall j | 1 <= j < k
      ensures runs[j].width != opener.width
    {
      assert runs[j] == skipped[j - 1];
    }
    CloserSkips(runs, opener.width, 1, k);
    assert runs[k] == closer && runs[k + 1..] == rest;
  }

  lemma {:induction false} UnclosedSpan(line: Line, opener: Run, rest: seq<Run>)
    requires NoneCloses(rest, opener.width)
    ensures Spans(line, [opener] + rest) == Spans(line, rest)
  {
    var runs := [opener] + rest;
    forall j | 1 <= j < |runs|
      ensures runs[j].width != opener.width
    {
      assert runs[j] == rest[j - 1];
    }
    CloserSkips(runs, opener.width, 1, |runs|);
    assert runs[1..] == rest;
  }

  // ---- what the spans are ----

  /** Index pairs of the runs that open and close a span: a closer is the first run of its opener's width
      after it, the pairs follow one another, and a run that no pair covers has no later run of its width. */
  predicate IsPairing(runs: seq<Run>, pairs: seq<(nat, nat)>) {
    AllClose(runs, pairs) && Follow(pairs) && OthersAreLast(runs, pairs)
  }

  predicate AllClose(runs: seq<Run>, pairs: seq<(nat, nat)>) {
    forall i :: 0 <= i < |pairs| ==> Closes(runs, pairs[i].0, pairs[i].1)
  }

  predicate OthersAreLast(runs: seq<Run>, pairs: seq<(nat, nat)>) {
    forall k :: 0 <= k < |runs| && Literal(pairs, k) ==> Last(runs, k)
  }

  predicate Follow(pairs: seq<(nat, nat)>) {
    forall i, j :: 0 <= i < j < |pairs| ==> pairs[i].1 < pairs[j].0
  }

  /** No later run has the width of this one. */
  predicate Last(runs: seq<Run>, k: nat)
    requires k < |runs|
  {
    forall m :: k < m < |runs| ==> runs[m].width != runs[k].width
  }

  predicate Closes(runs: seq<Run>, a: nat, b: nat) {
    && a < b < |runs| && runs[a].width == runs[b].width
    && forall k :: a < k < b ==> runs[k].width != runs[a].width
  }

  /** The run belongs to no span. */
  predicate Literal(pairs: seq<(nat, nat)>, k: nat) {
    forall i :: 0 <= i < |pairs| ==> k < pairs[i].0 || pairs[i].1 < k
  }

  /** The spans are the pieces of the line between the paired runs. */
  predicate Between(line: Line, runs: seq<Run>, pairs: seq<(nat, nat)>, spans: seq<Line>) {
    && |pairs| == |spans|
    && forall i :: 0 <= i < |pairs| ==>
         && pairs[i].0 < |runs| && pairs[i].1 < |runs|
         && var from, to := runs[pairs[i].0].start + runs[pairs[i].0].width, runs[pairs[i].1].start;
            from <= to <= |line| && spans[i] == line[from..to]
  }

  /** Runs inside the line, in order and without overlap. */
  predicate InLine(line: Line, runs: seq<Run>) {
    && (forall a :: 0 <= a < |runs| ==> runs[a].start + runs[a].width <= |line|)
    && forall a, b :: 0 <= a < b < |runs| ==> runs[a].start + runs[a].width <= runs[b].start
  }

  /** The same pairs, `d` runs later. */
  function Shifted(pairs: seq<(nat, nat)>, d: nat): (shifted: seq<(nat, nat)>)
    ensures |shifted| == |pairs|
    ensures forall i :: 0 <= i < |pairs| ==> shifted[i] == (pairs[i].0 + d, pairs[i].1 + d)
  {
    seq(|pairs|, i requires 0 <= i < |pairs| => (pairs[i].0 + d, pairs[i].1 + d))
  }

  lemma ClosesLater(runs: seq<Run>, d: nat, a: nat, b: nat)
    requires d <= |runs| && Closes(runs[d..], a, b)
    ensures Closes(runs, a + d, b + d)
  {
    forall k | a + d < k < b + d
      ensures runs[k].width != runs[a + d].width
    {
      assert runs[d..][k - d] == runs[k];
    }
  }

  /** A run left literal after the first `d` ones stays so. */
  lemma LiteralLater(runs: seq<Run>, d: nat, pairs: seq<(nat, nat)>, k: nat)
    requires d <= k < |runs| && IsPairing(runs[d..], pairs) && Literal(Shifted(pairs, d), k)
    ensures Last(runs, k)
  {
    var rest := runs[d..];
    forall i | 0 <= i < |pairs|
      ensures k - d < pairs[i].0 || pairs[i].1 < k - d
    {
      assert Shifted(pairs, d)[i] == (pairs[i].0 + d, pairs[i].1 + d);
    }
    assert Literal(pairs, k - d);
    forall m | k < m < |runs|
      ensures runs[m].width != runs[k].width
    {
      assert rest[m - d] == runs[m];
    }
  }

  lemma LiteralFirst(runs: seq<Run>, pairs: seq<(nat, nat)>)
    requires runs != [] && IsPairing(runs[1..], pairs) && Last(runs, 0)
    ensures IsPairing(runs, Shifted(pairs, 1))
  {
    var shifted := Shifted(pairs, 1);
    forall i | 0 <= i < |pairs|
      ensures Closes(runs, shifted[i].0, shifted[i].1)
    {
      ClosesLater(runs, 1, pairs[i].0, pairs[i].1);
    }
    forall k | 0 <= k < |runs| && Literal(shifted, k)
      ensures Last(runs, k)
    {
      if k > 0 {
        LiteralLater(runs, 1, pairs, k);
      }
    }
  }

  lemma ClosedFirst(runs: seq<Run>, c: nat, pairs: seq<(nat, nat)>)
    requires Closes(runs, 0, c) && AllClose(runs[c + 1..], pairs)
    ensures AllClose(runs, [(0, c)] + Shifted(pairs, c + 1))
  {
    assert c < |runs|;
    hide Closes;
    var grown := [(0, c)] + Shifted(pairs, c + 1);
    forall i | 0 <= i < |grown|
      ensures Closes(runs, grown[i].0, grown[i].1)
    {
      if i > 0 {
        ClosesLater(runs, c + 1, pairs[i - 1].0, pairs[i - 1].1);
      }
    }
  }

  lemma PairedFirst(runs: seq<Run>, c: nat, pairs: seq<(nat, nat)>)
    requires Closes(runs, 0, c) && IsPairing(runs[c + 1..], pairs)
    ensures IsPairing(runs, [(0, c)] + Shifted(pairs, c + 1))
  {
    hide Closes, AllClose, Follow, Literal, Last;
    var shifted := Shifted(pairs, c + 1);
    var grown := [(0, c)] + shifted;
    ClosedFirst(runs, c, pairs);
    FollowFirst(c, pairs);
    forall k | 0 <= k < |runs| && Literal(grown, k)
      ensures Last(runs, k)
    {
      LiteralTail(c, shifted, k);
      LiteralLater(runs, c + 1, pairs, k);
    }
  }

  lemma FollowFirst(c: nat, pairs: seq<(nat, nat)>)
    requires Follow(pairs)
    ensures Follow([(0, c)] + Shifted(pairs, c + 1))
  {
  }

  lemma LiteralTail(c: nat, pairs: seq<(nat, nat)>, k: nat)
    requires Literal([(0, c)] + pairs, k)
    ensures c < k && Literal(pairs, k)
  {
    assert ([(0, c)] + pairs)[0] == (0, c);
    forall i | 0 <= i < |pairs|
      ensures k < pairs[i].0 || pairs[i].1 < k
    {
      assert ([(0, c)] + pairs)[i + 1] == pairs[i];
    }
  }

  lemma BetweenShifted(line: Line, runs: seq<Run>, d: nat, pairs: seq<(nat, nat)>, spans: seq<Line>)
    requires d <= |runs| && Between(line, runs[d..], pairs, spans)
    ensures Between(line, runs, Shifted(pairs, d), spans)
  {
    forall i | 0 <= i < |pairs|
      ensures runs[d..][pairs[i].0] == runs[pairs[i].0 + d] && runs[d..][pairs[i].1] == runs[pairs[i].1 + d]
    {
    }
  }

  lemma InLineSuffix(line: Line, runs: seq<Run>, n: nat)
    requires InLine(line, runs) && n <= |runs|
    ensures InLine(line, runs[n..])
  {
  }

  /** The declarative scan pairs the runs that way. */
  lemma {:induction false} ScanIsPairing(line: Line, runs: seq<Run>) returns (pairs: seq<(nat, nat)>)
    requires InLine(line, runs)
    ensures IsPairing(runs, pairs) && Between(line, runs, pairs, Spans(line, runs))
    decreases |runs|
  {
    if runs == [] {
      pairs := [];
    } else {
      hide IsPairing, Between, InLine;
      CloserIsFirst(runs, runs[0].width, 1);
      match Closer(runs, runs[0].width, 1) {
        case None =>
          InLineSuffix(line, runs, 1);
          var rest := ScanIsPairing(line, runs[1..]);
          LiteralFirst(runs, rest);
          BetweenShifted(line, runs, 1, rest, Spans(line, runs[1..]));
          pairs := Shifted(rest, 1);
        case Some(c) =>
          InLineSuffix(line, runs, c + 1);
          var rest := ScanIsPairing(line, runs[c + 1..]);
          PairedFirst(runs, c, rest);
          BetweenShifted(line, runs, c + 1, rest, Spans(line, runs[c + 1..]));
          pairs := [(0, c)] + Shifted(rest, c + 1);
          FirstBetween(line, runs, c, Shifted(rest, c + 1), Spans(line, runs[c + 1..]));
      }
    }
  }

  lemma FirstBetween(line: Line, runs: seq<Run>, c: nat, pairs: seq<(nat, nat)>, spans: seq<Line>)
    requires InLine(line, runs) && 0 < c < |runs| && Between(line, runs, pairs, spans)
    ensures Between(line, runs, [(0, c)] + pairs, [Slice(line, runs[0].start + runs[0].width, runs[c].start)] + spans)
  {
  }

  /** No other pairing exists. */
  lemma PairingIsUnique(runs: seq<Run>, p: seq<(nat, nat)>, q: seq<(nat, nat)>)
    requires IsPairing(runs, p) && IsPairing(runs, q)
    ensures p == q
  {
    hide IsPairing;
    PairsAgree(runs, p, q, |p|);
    PairsAgree(runs, q, p, |q|);
  }

  lemma {:induction false} PairsAgree(runs: seq<Run>, p: seq<(nat, nat)>, q: seq<(nat, nat)>, n: nat)
    requires IsPairing(runs, p) && IsPairing(runs, q) && n <= |p|
    ensures n <= |q| && forall i :: 0 <= i < n ==> p[i] == q[i]
  {
    if n > 0 {
      hide IsPairing;
      PairsAgree(runs, p, q, n - 1);
      NextOpener(runs, p, q, n - 1);
      NextOpener(runs, q, p, n - 1);
      SameCloser(runs, p, q, n - 1);
    }
  }

  lemma SameCloser(runs: seq<Run>, p: seq<(nat, nat)>, q: seq<(nat, nat)>, n: nat)
    requires IsPairing(runs, p) && IsPairing(runs, q) && n < |p| && n < |q| && p[n].0 == q[n].0
    ensures p[n] == q[n]
  {
    assert Closes(runs, p[n].0, p[n].1) && Closes(runs, q[n].0, q[n].1);
  }

  /** With equal pairs so far, the next opener of `q` is no later than that of `p`. */
  lemma NextOpener(runs: seq<Run>, p: seq<(nat, nat)>, q: seq<(nat, nat)>, n: nat)
    requires IsPairing(runs, p) && IsPairing(runs, q) && n < |p| && n <= |q|
    requires forall i :: 0 <= i < n ==> p[i] == q[i]
    ensures n < |q| && q[n].0 <= p[n].0
  {
    var a := p[n].0;
    assert Closes(runs, a, p[n].1);
    assert !Last(runs, a);
    assert forall j :: 0 <= j < n ==> q[j].1 < a;
    assert !Literal(q, a);
    var j :| 0 <= j < |q| && q[j].0 <= a <= q[j].1;
    assert n <= j && (n < j ==> q[n].1 < q[j].0);
    assert Closes(runs, q[n].0, q[n].1);
  }

  lemma {:induction false} LineRuns(line: Line)
    ensures InLine(line, Runs(line, 0))
  {
    RunsAscend(line, 0);
    RunsAreMaximal(line, 0);
    forall a | 0 <= a < |Runs(line, 0)|
      ensures Runs(line, 0)[a].start + Runs(line, 0)[a].width <= |line|
    {
      assert Runs(line, 0)[a] in Runs(line, 0);
      assert Maximal(line, Runs(line, 0)[a]);
    }
  }

  /** The run-consuming loop: moves past consecutive backticks. */
  method SkipTicks(line: Line, from: nat) returns (i: nat)
    requires from <= |line|
    ensures i == from + TicksFrom(line, from)
  {
    i := from;
    while i < |line| && line[i] == TICK
      invariant from <= i <= |line|
      invariant i + TicksFrom(line, i) == from + TicksFrom(line, from)
    {
      i := i + 1;
    }
  }

  /** The search for a closer from `start`: where it begins and where scanning goes on. */
  method FindCloser(line: Line, start: nat, width: nat) returns (close: Option<nat>, i: nat, ghost skipped: seq<Run>)
    requires start <= |line|
    ensures start <= i <= |line| && NoneCloses(skipped, width)
    ensures close.None? ==> Runs(line, start) == skipped
    ensures close.Some? ==>
      start <= close.value < i && Runs(line, start) == skipped + [Run(close.value, width)] + Runs(line, i)
  {
    i := start;
    skipped := [];
    while i < |line|
      invariant start <= i <= |line| && NoneCloses(skipped, width)
      invariant Runs(line, start) == skipped + Runs(line, i)
      decreases |line| - i
    {
      if line[i] != TICK {
        i := i + 1;
        continue;
      }
      var run := i;
      i := SkipTicks(line, i);
      assert Runs(line, run) == [Run(run, i - run)] + Runs(line, i);
      if i - run == width {
        return Some(run), i, skipped;
      }
      skipped := skipped + [Run(run, i - run)];
    }
    return None, i, skipped;
  }

  /** The scan returns the pieces between the paired runs, and nothing else is such a list. */
  lemma {:induction false} SpansAreExact(line: Line, spans: seq<Line>)
    ensures spans == Spans(line, Runs(line, 0)) <==>
      exists pairs :: IsPairing(Runs(line, 0), pairs) && Between(line, Runs(line, 0), pairs, spans)
  {
    var runs := Runs(line, 0);
    LineRuns(line);
    hide IsPairing, Between, InLine, Spans, Runs;
    var found := ScanIsPairing(line, runs);
    forall pairs | IsPairing(runs, pairs) && Between(line, runs, pairs, spans)
      ensures spans == Spans(line, runs)
    {
      PairingIsUnique(runs, pairs, found);
      SameSpans(line, runs, pairs, spans, Spans(line, runs));
    }
  }

  lemma SameSpans(line: Line, runs: seq<Run>, pairs: seq<(nat, nat)>, s: seq<Line>, t: seq<Line>)
    requires Between(line, runs, pairs, s) && Between(line, runs, pairs, t)
    ensures s == t
  {
  }

  lemma {:induction false} NoSpans(line: Line)
    ensures Spans(line, []) == []
  {
  }

  /** `code_spans`: terminates although it backtracks to `start` after a failed search. */
  method CodeSpansOf(line: Line) returns (spans: seq<Line>)
    ensures spans == Spans(line, Runs(line, 0))
    ensures exists pairs :: IsPairing(Runs(line, 0), pairs) && Between(line, Runs(line, 0), pairs, spans)
  {
    NoSpans(line);
    hide Spans, IsPairing, Between, NoneCloses;
    spans := [];
    var i := 0;
    while i < |line|
      invariant i <= |line|
      invariant spans + Spans(line, Runs(line, i)) == Spans(line, Runs(line, 0))
      decreases |line| - i
    {
      if line[i] != TICK {
        i := i + 1;
        continue;
      }
      var open := i;
      i := SkipTicks(line, i);
      var width := i - open;
      var start := i;
      var close, resume;
      ghost var skipped;
      close, resume, skipped := FindCloser(line, start, width);
      assert Runs(line, open) == [Run(open, width)] + Runs(line, start);
      match close {
        case Some(end) =>
          ClosedSpan(line, Run(open, width), skipped, Run(end, width), Runs(line, resume));
          spans := spans + [line[start..end]];
          i := resume;
        case None =>
          UnclosedSpan(line, Run(open, width), Runs(line, start));
          i := start;
      }
    }
    SpansAreExact(line, spans);
  }
}
