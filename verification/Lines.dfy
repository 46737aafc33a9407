/** Shape-preserving reduction of line-structured text (compressor.rs). */
module Lines {
  import opened Wrappers
  import opened Utf8

  /** What the marker names: how many lines and chars are missing, and which. */
  datatype Gap = Gap(lines: nat, first: nat, last: nat, numbered: bool, total: nat, chars: nat)

  /** Wording, and the number a listing gives its own line, are parameters. */
  datatype Style = Style(marker: Gap -> string, ownNumber: string -> Option<nat>, charMarker: nat -> string)

  // ---------------------------------------------------------------------
  // Lines
  // ---------------------------------------------------------------------

  /** The first n lines together. */
  function Join(lines: seq<string>, n: nat): string
    requires n <= |lines|
  {
    if n == 0 then "" else Join(lines, n - 1) + lines[n - 1]
  }

  function Size(lines: seq<string>, n: nat): nat
    requires n <= |lines|
  {
    if n == 0 then 0 else Size(lines, n - 1) + |lines[n - 1]|
  }

  /** A line holds at most one newline, at its end; every line but the last has it. */
  predicate IsLine(lines: seq<string>, i: nat)
    requires i < |lines|
  {
    && lines[i] != ""
    && (forall k :: 0 <= k < |lines[i]| - 1 ==> lines[i][k] != '\n')
    && (i < |lines| - 1 ==> lines[i][|lines[i]| - 1] == '\n')
  }

  /** split_inclusive('\n') */
  predicate AreLinesOf(content: string, lines: seq<string>) {
    Join(lines, |lines|) == content && forall i :: 0 <= i < |lines| ==> IsLine(lines, i)
  }

  method SplitInclusive(content: string) returns (lines: seq<string>)
    ensures AreLinesOf(content, lines)
  {
    lines := [];
    var start := 0;
    for i := 0 to |content|
      invariant start <= i
      invariant Join(lines, |lines|) == content[..start]
      invariant forall k :: 0 <= k < |lines| ==> IsLine(lines + [""], k)
      invariant forall k :: start <= k < i ==> content[k] != '\n'
    {
      if content[i] == '\n' {
        lines := Pushed(content, lines, start, i + 1);
        start := i + 1;
      }
    }
    if start < |content| {
      ghost var before := lines;
      JoinPush(lines, content[start..]);
      lines := lines + [content[start..]];
      assert content[..start] + content[start..] == content;
      forall k | 0 <= k < |lines| ensures IsLine(lines, k) {
        if k < |before| {
          assert IsLine(before + [""], k);
        }
      }
    } else {
      assert content[..start] == content;
      forall k | 0 <= k < |lines| ensures IsLine(lines, k) {
        assert IsLine(lines + [""], k);
      }
    }
  }

  function Pushed(content: string, lines: seq<string>, start: nat, end: nat): (r: seq<string>)
    requires start < end <= |content| && content[end - 1] == '\n'
    requires forall k :: start <= k < end - 1 ==> content[k] != '\n'
    requires Join(lines, |lines|) == content[..start]
    requires forall k :: 0 <= k < |lines| ==> IsLine(lines + [""], k)
    ensures Join(r, |r|) == content[..end]
    ensures forall k :: 0 <= k < |r| ==> IsLine(r + [""], k)
  {
    var r := lines + [content[start..end]];
    assert Join(r, |r|) == content[..end] by {
      JoinPush(lines, content[start..end]);
      assert content[..start] + content[start..end] == content[..end];
    }
    assert forall k :: 0 <= k < |r| ==> IsLine(r + [""], k) by {
      forall k | 0 <= k < |r| ensures IsLine(r + [""], k) {
        if k < |lines| {
          assert IsLine(lines + [""], k);
        }
      }
    }
    r
  }

  lemma {:induction false} JoinOfPrefix(a: seq<string>, b: seq<string>, n: nat)
    requires n <= |a|
    ensures Join(a + b, n) == Join(a, n)
  {
    if n > 0 {
      JoinOfPrefix(a, b, n - 1);
    }
  }

  lemma JoinPush(lines: seq<string>, line: string)
    ensures Join(lines + [line], |lines| + 1) == Join(lines, |lines|) + line
  {
    JoinOfPrefix(lines, [line], |lines|);
  }

  /** The lines from n on, joined, are what follows the first n. */
  lemma {:induction false} JoinSplits(lines: seq<string>, n: nat, m: nat)
    requires n <= m <= |lines|
    ensures Size(lines, n) == |Join(lines, n)| <= |Join(lines, m)| == Size(lines, m)
    ensures Join(lines, m)[..Size(lines, n)] == Join(lines, n)
    decreases m
  {
    if n < m {
      JoinSplits(lines, n, m - 1);
    } else if n > 0 {
      JoinSplits(lines, n - 1, n - 1);
    }
  }

  // ---------------------------------------------------------------------
  // Which lines stay
  // ---------------------------------------------------------------------

  /** The longest prefix of whole lines within `half`. */
  predicate IsHeadRun(lines: seq<string>, half: nat, head: nat) {
    && head <= |lines| && Size(lines, head) <= half
    && (head < |lines| ==> half < Size(lines, head + 1))
  }

  function TailSize(lines: seq<string>, tail: nat): nat
    requires tail <= |lines|
  {
    if tail == 0 then 0 else TailSize(lines, tail - 1) + |lines[|lines| - tail]|
  }

  /** The longest suffix of whole lines within `half` that leaves the head alone. */
  predicate IsTailRun(lines: seq<string>, half: nat, head: nat, tail: nat) {
    && head + tail <= |lines| && TailSize(lines, tail) <= half
    && (head + tail < |lines| ==> half < TailSize(lines, tail + 1))
  }

  function Floor1(n: nat): nat {
    if n == 0 then 1 else n
  }

  /** head and tail as kept: the longest runs, but never less than one line each way. */
  predicate KeptRuns(lines: seq<string>, half: nat, head: nat, tail: nat) {
    exists h, t | 0 <= h <= |lines| && 0 <= t <= |lines| ::
      && IsHeadRun(lines, half, h) && IsTailRun(lines, half, h, t)
      && head == Floor1(h)
      && tail == if t == 0 && head < |lines| then 1 else t
  }

  function GapOf(style: Style, lines: seq<string>, head: nat, tail: nat): Gap
    requires head + tail < |lines|
  {
    var last := |lines| - tail - 1;
    var chars := Size(lines, |lines| - tail) - Size(lines, head);
    var a, b := style.ownNumber(lines[head]), style.ownNumber(lines[last]);
    if a.Some? && b.Some? then Gap(|lines| - head - tail, a.value, b.value, true, |lines|, MaxInt(chars))
    else Gap(|lines| - head - tail, head + 1, last + 1, false, |lines|, MaxInt(chars))
  }

  function MaxInt(n: int): nat {
    if n < 0 then 0 else n
  }

  function Elided(style: Style, content: string, lines: seq<string>, head: nat, tail: nat): string
    requires head + tail < |lines|
    requires Size(lines, |lines| - tail) <= |content|
  {
    Join(lines, head) + style.marker(GapOf(style, lines, head, tail)) + content[Size(lines, |lines| - tail)..]
  }

  /**
    What is kept is exact: the output is a verbatim prefix of whole lines, the marker
    and a verbatim suffix of whole lines; the chars between them are the number the
    marker reports.
   */
  lemma ElisionIsVerbatim(content: string, lines: seq<string>, head: nat, tail: nat)
    requires AreLinesOf(content, lines) && head + tail < |lines|
    ensures Size(lines, head) <= Size(lines, |lines| - tail) <= |content|
    ensures content[..Size(lines, head)] == Join(lines, head)
    ensures content[..Size(lines, |lines| - tail)] == Join(lines, |lines| - tail)
    ensures |content| == Size(lines, head) + (Size(lines, |lines| - tail) - Size(lines, head)) + TailSize(lines, tail)
  {
    JoinSplits(lines, head, |lines| - tail);
    JoinSplits(lines, head, |lines|);
    JoinSplits(lines, |lines| - tail, |lines|);
    SizesAddUp(lines, tail);
  }

  lemma {:induction false} SizesAddUp(lines: seq<string>, tail: nat)
    requires tail <= |lines|
    ensures Size(lines, |lines| - tail) + TailSize(lines, tail) == Size(lines, |lines|)
  {
    if tail > 0 {
      SizesAddUp(lines, tail - 1);
    }
  }

  /** What the marker may say of a gap: its size, where it lies, and what it is called. */
  predicate GapTells(style: Style, content: string, lines: seq<string>, head: nat, tail: nat, gap: Gap)
    requires head + tail < |lines|
  {
    && gap.lines + head + tail == gap.total == |lines|
    && gap.chars + Size(lines, head) + TailSize(lines, tail) == |content|
    && (if style.ownNumber(lines[head]).Some? && style.ownNumber(lines[|lines| - tail - 1]).Some?
        then gap.numbered && Some(gap.first) == style.ownNumber(lines[head])
             && Some(gap.last) == style.ownNumber(lines[|lines| - tail - 1])
        else !gap.numbered && gap.first == head + 1 && gap.last == |lines| - tail)
  }

  /** The output begins with the first lines, ends with the last ones, and has a true marker between them. */
  ghost predicate KeepsBothEnds(style: Style, content: string, lines: seq<string>, head: nat, tail: nat, out: string)
    requires head + tail < |lines|
  {
    var h, t := Size(lines, head), TailSize(lines, tail);
    && h + t <= |content| && h + t <= |out|
    && out[..h] == content[..h] && out[|out| - t..] == content[|content| - t..]
    && exists gap :: GapTells(style, content, lines, head, tail, gap) && out[h..|out| - t] == style.marker(gap)
  }

  lemma ElidedKeepsBothEnds(style: Style, content: string, lines: seq<string>, head: nat, tail: nat)
    requires AreLinesOf(content, lines) && head + tail < |lines|
    ensures Size(lines, |lines| - tail) <= |content|
    ensures KeepsBothEnds(style, content, lines, head, tail, Elided(style, content, lines, head, tail))
  {
    ElisionIsVerbatim(content, lines, head, tail);
    JoinSplits(lines, head, head);
    var gap := GapOf(style, lines, head, tail);
    assert GapTells(style, content, lines, head, tail, gap);
    var out, h, t := Elided(style, content, lines, head, tail), Size(lines, head), TailSize(lines, tail);
    assert out == content[..h] + style.marker(gap) + content[|content| - t..];
    assert out[h..|out| - t] == style.marker(gap);
  }

  /** Keep head and tail lines, name the gap; None when that would not pay. */
  method ElideByLines(style: Style, content: string, ratio: nat)
    returns (r: Option<string>, lines: seq<string>, head: nat, tail: nat)
    ensures AreLinesOf(content, lines)
    ensures |lines| < 4 ==> r == FallbackCompress(style, content, ratio)
    ensures |lines| < 4 && r.Some? ==>
              var half := HalfTarget(content, ratio);
              var missing := CeilBoundary(content, |content| - half) - FloorBoundary(content, half);
              0 <= missing && (|r.value| < |content| <==> |style.charMarker(missing)| < missing)
    ensures |lines| >= 4 && HalfTarget(content, ratio) >= 100 ==> KeptRuns(lines, HalfTarget(content, ratio), head, tail)
    ensures |lines| >= 4 ==> (r.Some? <==>
              && HalfTarget(content, ratio) >= 100 && head + tail < |lines|
              && Size(lines, |lines| - tail) <= |content|
              && |Elided(style, content, lines, head, tail)| < |content|)
    ensures |lines| >= 4 && r.Some? ==> r.value == Elided(style, content, lines, head, tail)
    ensures |lines| >= 4 && r.Some? ==> KeepsBothEnds(style, content, lines, head, tail, r.value)
  {
    lines := SplitInclusive(content);
    head, tail := 0, 0;
    if |lines| < 4 {
      if FallbackCompress(style, content, ratio).Some? {
        FallbackShrinksExactlyWhen(style, content, ratio);
      }
      return FallbackCompress(style, content, ratio), lines, head, tail;
    }
    var half := HalfTarget(content, ratio);
    if half < 100 {
      return None, lines, head, tail;
    }
    var headChars := 0;
    while head < |lines| && headChars + |lines[head]| <= half
      invariant head <= |lines| && headChars == Size(lines, head) <= half
    {
      headChars := headChars + |lines[head]|;
      head := head + 1;
    }
    var tailChars := 0;
    while head + tail < |lines| && tailChars + |lines[|lines| - 1 - tail]| <= half
      invariant head + tail <= |lines| && tailChars == TailSize(lines, tail) <= half
    {
      tailChars := tailChars + |lines[|lines| - 1 - tail]|;
      tail := tail + 1;
    }
    assert IsHeadRun(lines, half, head) && IsTailRun(lines, half, head, tail);
    // Neither end may vanish altogether.
    if head == 0 {
      head := 1;
    }
    if tail == 0 && head < |lines| {
      tail := 1;
    }
    if head + tail >= |lines| {
      return None, lines, head, tail;
    }
    ElisionIsVerbatim(content, lines, head, tail);
    var out := Elided(style, content, lines, head, tail);
    if |out| >= |content| {
      return None, lines, head, tail;
    }
    ElidedKeepsBothEnds(style, content, lines, head, tail);
    return Some(out), lines, head, tail;
  }

  lemma {:induction false} FactorIsSmaller(q: nat, k: nat, n: nat)
    requires k > 0 && q * k <= n
    ensures q <= n
  {
  }

  /** Twice the half, once for each part the ratio asks for, is as much of the content as goes into it. */
  lemma HalfIsLargest(content: string, ratio: nat)
    requires ratio > 0
    ensures 2 * HalfTarget(content, ratio) * ratio <= |content| < (2 * HalfTarget(content, ratio) + 2) * ratio
    ensures HalfTarget(content, 0) == HalfTarget(content, 1)
  {
    var target, half := |content| / ratio, HalfTarget(content, ratio);
    assert target * ratio <= |content| < (target + 1) * ratio;
    TimesGrows(2 * half, target, ratio);
    TimesGrows(target + 1, 2 * half + 2, ratio);
  }

  lemma TimesGrows(a: nat, b: nat, c: nat)
    requires a <= b
    ensures a * c <= b * c
  {
  }

  /** Half of what the ratio leaves. */
  function HalfTarget(content: string, ratio: nat): (half: nat)
    ensures 2 * half <= |content|
  {
    FactorIsSmaller(|content| / Floor1(ratio), Floor1(ratio), |content|);
    |content| / Floor1(ratio) / 2
  }

  /** Char-level reduction for text without lines to preserve. */
  function FallbackCompress(style: Style, content: string, ratio: nat): Option<string> {
    var half := HalfTarget(content, ratio);
    if half < 100 then None
    else
      var start := FloorBoundary(content, half);
      var end := CeilBoundary(content, |content| - half);
      Some(content[..start] + style.charMarker(end - start) + content[end..])
  }

  /** A prefix, a count of what is missing, and a suffix, cut on character boundaries. */
  predicate IsCharElision(style: Style, content: string, r: string, head: nat, tail: nat) {
    && head + tail <= |content|
    && IsBoundary(content, head) && IsBoundary(content, |content| - tail)
    && r == content[..head] + style.charMarker(|content| - head - tail) + content[|content| - tail..]
  }

  /** The char-level reduction is shorter exactly when its marker is shorter than what is missing. */
  lemma FallbackShrinksExactlyWhen(style: Style, content: string, ratio: nat)
    requires FallbackCompress(style, content, ratio).Some?
    ensures var half := HalfTarget(content, ratio);
      var missing := CeilBoundary(content, |content| - half) - FloorBoundary(content, half);
      && 0 <= missing
      && (|FallbackCompress(style, content, ratio).value| < |content| <==> |style.charMarker(missing)| < missing)
  {
  }

  /** At ratio 1 nothing goes missing from two hundred plain characters, and the marker comes on top. */
  lemma FallbackCanLengthen(style: Style)
    requires style.charMarker(0) != ""
    ensures var content := seq(200, i => 'x');
      FallbackCompress(style, content, 1).Some? && |content| < |FallbackCompress(style, content, 1).value|
  {
    var content := seq(200, i => 'x');
    assert HalfTarget(content, 1) == 100;
    assert FloorBoundary(content, 100) == 100 == CeilBoundary(content, 100);
  }

  /** The kept ends are as long as half the target allows: no boundary nearer to it was passed over. */
  lemma FallbackKeepsTheEnds(style: Style, content: string, ratio: nat) returns (head: nat, tail: nat)
    requires FallbackCompress(style, content, ratio).Some?
    ensures var half := HalfTarget(content, ratio);
      && IsCharElision(style, content, FallbackCompress(style, content, ratio).value, head, tail)
      && head <= half && tail <= half
      && (forall b: nat :: b <= |content| && IsBoundary(content, b) ==> b <= head || half < b)
      && (forall b: nat :: b <= |content| && IsBoundary(content, b) ==> |content| - tail <= b || b < |content| - half)
  {
    var half := HalfTarget(content, ratio);
    head, tail := FloorBoundary(content, half), |content| - CeilBoundary(content, |content| - half);
    forall b: nat | b <= |content| && IsBoundary(content, b)
      ensures (b <= head || half < b) && (|content| - tail <= b || b < |content| - half)
    {
      if b <= half {
        FloorFindsLast(content, half, b);
      }
      if |content| - half <= b {
        CeilFindsFirst(content, |content| - half, b);
      }
    }
  }
}
