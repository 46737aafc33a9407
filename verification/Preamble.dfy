/** Shrinking the consolidated summary without a model (elide_preamble_to_fit). */
module Preamble {
  import opened Wrappers
  import opened Utf8

  /** The fixed text of an elision: what follows the count, and what marks the gap. */
  datatype Wording = Wording(noticeTail: string, marker: string)

  const ELISION_WORDING := Wording(
    " chars of this summary were elided to make room for the live request. " +
    "WHY: the summary had grown past the space the conversation itself needs. " +
    "Everything it described already happened and SUCCEEDED \U{E2}\U{80}\U{94} files on disk are the " +
    "ground truth.]\n",
    "\n[...elided...]\n")

  function Notice(w: Wording, elided: nat): string {
    "[" + Decimal(elided) + w.noticeTail
  }

  /** Room set aside for a notice with a nine-digit count, and the marker. */
  function NoticeReserve(w: Wording): nat {
    1 + 9 + |w.noticeTail| + |w.marker|
  }

  function MonusNat(a: nat, b: nat): nat {
    if a < b then 0 else a - b
  }

  function MinNat(a: nat, b: nat): nat {
    if a < b then a else b
  }

  /** How many chars each side may keep: half of what the notice leaves of the allowance. */
  function Half(w: Wording, allowedChars: nat): nat {
    MonusNat(allowedChars, NoticeReserve(w)) / 2
  }

  function HeadEnd(w: Wording, summary: string, allowedChars: nat): nat {
    FloorBoundary(summary, MinNat(Half(w, allowedChars), |summary|))
  }

  function TailStart(w: Wording, summary: string, allowedChars: nat): nat {
    CeilBoundary(summary, MonusNat(|summary|, Half(w, allowedChars)))
  }

  /** The elided summary, or None when eliding is not called for or would not shrink it. */
  function Elide(w: Wording, summary: string, allowedChars: nat): Option<string> {
    if |summary| <= allowedChars then None
    else
      var head := summary[..HeadEnd(w, summary, allowedChars)];
      var tail := if TailStart(w, summary, allowedChars) > HeadEnd(w, summary, allowedChars)
                  then summary[TailStart(w, summary, allowedChars)..] else "";
      var elided := |summary| - |head| - |tail|;
      var replacement := Notice(w, elided) + head + w.marker + tail;
      if |replacement| >= |summary| then None else Some(replacement)
  }

  /** The result is the notice, a prefix, the marker and a suffix, and the notice counts what is gone. */
  predicate IsElision(w: Wording, summary: string, result: string, head: nat, tail: nat) {
    && head + tail <= |summary|
    && IsBoundary(summary, head) && IsBoundary(summary, |summary| - tail)
    && result == Notice(w, |summary| - head - tail) + summary[..head] + w.marker + summary[|summary| - tail..]
  }

  lemma KeptEndsDoNotOverlap(w: Wording, summary: string, allowedChars: nat)
    requires allowedChars < |summary|
    ensures HeadEnd(w, summary, allowedChars) <= Half(w, allowedChars)
    ensures HeadEnd(w, summary, allowedChars) <= TailStart(w, summary, allowedChars) <= |summary|
    ensures |summary| - TailStart(w, summary, allowedChars) <= Half(w, allowedChars)
    ensures IsBoundary(summary, HeadEnd(w, summary, allowedChars))
    ensures IsBoundary(summary, TailStart(w, summary, allowedChars))
    ensures HeadEnd(w, summary, allowedChars) == TailStart(w, summary, allowedChars) ==>
              TailStart(w, summary, allowedChars) == |summary|
  {
  }

  /**
    An elision is strictly shorter than what it replaces.  It is the notice, a
    prefix, the marker and a suffix, which do not overlap and fall on character
    boundaries, and the count in the notice is exactly what is missing.  It fits
    the allowance whenever the allowance covers the reserve and the count has at
    most nine digits.
   */
  lemma ElisionIsFaithful(w: Wording, summary: string, allowedChars: nat)
    requires Elide(w, summary, allowedChars).Some?
    ensures var result := Elide(w, summary, allowedChars).value;
      var head := HeadEnd(w, summary, allowedChars);
      var tail := |summary| - TailStart(w, summary, allowedChars);
      && allowedChars < |summary|
      && |result| < |summary|
      && 0 <= tail <= Half(w, allowedChars) && head <= Half(w, allowedChars)
      && IsElision(w, summary, result, head, tail)
      && (NoticeReserve(w) <= allowedChars && |summary| - head - tail < Pow10(9) ==> |result| <= allowedChars)
  {
    KeptEndsDoNotOverlap(w, summary, allowedChars);
    var head := HeadEnd(w, summary, allowedChars);
    var start := TailStart(w, summary, allowedChars);
    assert start == |summary| ==> summary[start..] == "";
    NoticeWithinReserve(w, start - head);
  }

  lemma NoticeWithinReserve(w: Wording, elided: nat)
    ensures elided < Pow10(9) ==> |Notice(w, elided)| + |w.marker| <= NoticeReserve(w)
  {
    if elided < Pow10(9) {
      DecimalLength(elided, 9);
    }
  }

  /** How long an elision is: the notice, the kept head, the marker and the kept tail. */
  function ElidedLength(w: Wording, summary: string, allowedChars: nat): nat {
    var head, start := HeadEnd(w, summary, allowedChars), TailStart(w, summary, allowedChars);
    |Notice(w, MonusNat(start, head))| + head + |w.marker| + MonusNat(|summary|, start)
  }

  /**
    When elision declines although the summary is too long: exactly when the
    notice and the marker would cost at least as much as the text they replace.
    Otherwise its length is known beforehand.
   */
  lemma ElisionDeclines(w: Wording, summary: string, allowedChars: nat)
    requires allowedChars < |summary|
    ensures var head := HeadEnd(w, summary, allowedChars);
      var start := TailStart(w, summary, allowedChars);
      && head <= start
      && (Elide(w, summary, allowedChars).None? <==> start - head <= |Notice(w, start - head)| + |w.marker|)
    ensures Elide(w, summary, allowedChars).Some? <==> ElidedLength(w, summary, allowedChars) < |summary|
    ensures Elide(w, summary, allowedChars).Some? ==>
              |Elide(w, summary, allowedChars).value| == ElidedLength(w, summary, allowedChars)
  {
    KeptEndsDoNotOverlap(w, summary, allowedChars);
    var start := TailStart(w, summary, allowedChars);
    assert start == |summary| ==> summary[start..] == "";
  }

  /** The notice opens with the count, in digits that read back as the count. */
  lemma NoticeTellsTheCount(w: Wording, elided: nat) returns (digits: string)
    ensures Notice(w, elided) == "[" + digits + w.noticeTail && ValueOf(digits) == elided
  {
    digits := Decimal(elided);
    DecimalReadsBack(elided);
  }

  /** What is set aside is exactly a notice with a nine-digit count, and the marker. */
  lemma ReserveIsExact(w: Wording, count: nat)
    requires 100_000_000 <= count < 1_000_000_000
    ensures NoticeReserve(w) == |Notice(w, count)| + |w.marker|
  {
    NinePowers();
    DecimalLengthExactly(count, 9);
  }

  lemma NinePowers()
    ensures Pow10(8) == 100_000_000 && Pow10(9) == 1_000_000_000
  {
    assert Pow10(4) == 10_000;
    assert Pow10(8) == 10_000 * 10_000;
  }

  /**
    The ends kept are the longest there is room for: whatever could stand at both
    ends beside a notice of nine digits and the marker is within the head, and its
    mirror image within the tail.
   */
  lemma KeptEndsAreLongest(w: Wording, summary: string, allowedChars: nat, count: nat, b: nat)
    requires allowedChars < |summary| && 100_000_000 <= count < 1_000_000_000
    requires 2 * b + |Notice(w, count)| + |w.marker| <= allowedChars
    ensures IsBoundary(summary, b) ==> b <= HeadEnd(w, summary, allowedChars)
    ensures IsBoundary(summary, |summary| - b) ==> b <= |summary| - TailStart(w, summary, allowedChars)
  {
    ReserveIsExact(w, count);
    assert b <= Half(w, allowedChars) <= |summary|;
    if IsBoundary(summary, b) {
      FloorFindsLast(summary, Half(w, allowedChars), b);
    }
    if IsBoundary(summary, |summary| - b) {
      CeilFindsFirst(summary, |summary| - Half(w, allowedChars), |summary| - b);
    }
  }
}
