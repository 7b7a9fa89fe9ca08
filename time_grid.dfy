/**
 * The time grid: `HH:MM` clock text, `HH:MM–HH:MM` slot ranges and minute
 * offsets from midnight (app.py, `time_to_min`, `parse_slot`, `min_to_range`).
 */
module TimeGrid {
  import opened Wrappers
  import opened Text

  const EnDash: char := '\U{2013}'
  const EmDash: char := '\U{2014}'

  /** `time_to_min`: exactly one `:`, digits on both sides; no range check on hours or minutes. */
  function TimeToMin(hhmm: string): Option<nat>
  {
    var parts := Split(hhmm, ':');
    if |parts| != 2 then None
    else match (ParseNat(parts[0]), ParseNat(parts[1]))
      case (Some(h), Some(m)) => Some(h * 60 + m)
      case _ => None
  }

  /** The dash-like separators `parse_slot` folds into `-` before splitting. */
  function NormalizeDashes(s: string): string
  {
    Replace(Replace(s, EmDash, '-'), EnDash, '-')
  }

  /** `parse_slot`: the start offset of a slot range; the end text is ignored. */
  function ParseSlot(slot: string): Option<nat>
  {
    TimeToMin(Strip(Split(NormalizeDashes(slot), '-')[0]))
  }

  /** `HH:MM` for a minute offset (two-digit fields, hours may exceed 23). */
  function Clock(m: nat): string
  {
    Pad2(m / 60) + ":" + Pad2(m % 60)
  }

  /** `min_to_range(start, dur)`: start and end clock times joined by an en dash. */
  function MinToRange(start: nat, dur: nat): string
  {
    Clock(start) + [EnDash] + Clock(start + dur)
  }

  /** `time_to_min("H:M") = 60*H + M` for any decimal H and M, zero-padded or not. */
  lemma TimeToMinOf(hText: string, mText: string, h: nat, m: nat)
    requires hText == NatToString(h) || hText == Pad2(h)
    requires mText == NatToString(m) || mText == Pad2(m)
    ensures TimeToMin(hText + ":" + mText) == Some(60 * h + m)
  {
    if hText == NatToString(h) { ParseNatToString(h); } else { ParsePad2(h); }
    if mText == NatToString(m) { ParseNatToString(m); } else { ParsePad2(m); }
    TimeToMinFields(hText, mText, h, m);
  }

  /** Two fields that parse as decimals, joined by `:`, give their minute offset. */
  lemma TimeToMinFields(hText: string, mText: string, h: nat, m: nat)
    requires ParseNat(hText) == Some(h) && ParseNat(mText) == Some(m)
    ensures TimeToMin(hText + ":" + mText) == Some(60 * h + m)
  {
    assert ':' !in hText && ':' !in mText by {
      assert !IsDigit(':');
    }
    SplitAtFirst(hText, ':', mText);
    SplitNoSep(mText, ':');
    assert hText + ":" + mText == hText + [':'] + mText;
  }

  /** No range check: `25:99` is accepted and means 1599 minutes. */
  lemma TimeToMinUnchecked()
    ensures TimeToMin("25:99") == Some(1599)
  {
    assert NatToString(25) == "25" && NatToString(99) == "99";
    TimeToMinOf("25", "99", 25, 99);
    assert "25" + ":" + "99" == "25:99";
  }

  lemma ClockHasNoSeparators(m: nat)
    ensures '-' !in Clock(m) && EnDash !in Clock(m) && EmDash !in Clock(m)
    ensures |Clock(m)| > 0 && !IsSpace(Clock(m)[0]) && !IsSpace(Clock(m)[|Clock(m)| - 1])
  {
    var a, b := Pad2(m / 60), Pad2(m % 60);
    assert Clock(m) == a + ":" + b;
    assert forall i :: 0 <= i < |a| ==> Clock(m)[i] == a[i];
    assert forall i :: 0 <= i < |b| ==> Clock(m)[|a| + 1 + i] == b[i];
  }

  /** `time_to_min` reads back what `Clock` prints. */
  lemma TimeToMinClock(m: nat)
    ensures TimeToMin(Clock(m)) == Some(m)
  {
    TimeToMinOf(Pad2(m / 60), Pad2(m % 60), m / 60, m % 60);
  }

  lemma NormalizeDashesAppend(a: string, b: string)
    ensures NormalizeDashes(a + b) == NormalizeDashes(a) + NormalizeDashes(b)
  {
    ReplaceAppend(a, b, EmDash, '-');
    ReplaceAppend(Replace(a, EmDash, '-'), Replace(b, EmDash, '-'), EnDash, '-');
  }

  lemma NormalizeDashesClock(m: nat)
    ensures NormalizeDashes(Clock(m)) == Clock(m)
  {
    ClockHasNoSeparators(m);
  }

  lemma StripUnchanged(s: string)
    requires s != [] && !IsSpace(s[0]) && !IsSpace(s[|s| - 1])
    ensures Strip(s) == s
  {
  }

  /**
   * A range whose start is printed by `Clock` parses back to that start,
   * whichever of `-`, `–` or `—` separates it from the rest.
   */
  lemma {:induction false} ParseSlotAnySeparator(m: nat, sep: char, rest: string)
    requires sep == '-' || sep == EnDash || sep == EmDash
    ensures ParseSlot(Clock(m) + [sep] + rest) == Some(m)
  {
    var c := Clock(m);
    NormalizeDashesAppend(c + [sep], rest);
    NormalizeDashesAppend(c, [sep]);
    NormalizeDashesClock(m);
    assert NormalizeDashes([sep]) == "-";
    assert NormalizeDashes(c + [sep] + rest) == c + ['-'] + NormalizeDashes(rest);
    ClockHasNoSeparators(m);
    SplitAtFirst(c, '-', NormalizeDashes(rest));
    StripUnchanged(c);
    TimeToMinClock(m);
  }

  /** Round trip: `parse_slot(min_to_range(m)) == m` for every offset and duration. */
  lemma ParseSlotRoundTrip(m: nat, dur: nat)
    ensures ParseSlot(MinToRange(m, dur)) == Some(m)
  {
    ParseSlotAnySeparator(m, EnDash, Clock(m + dur));
  }

  /** Distinct starts give distinct range texts (a consequence of the round trip). */
  lemma MinToRangeInjective(m1: nat, m2: nat, dur: nat)
    requires MinToRange(m1, dur) == MinToRange(m2, dur)
    ensures m1 == m2
  {
    ParseSlotRoundTrip(m1, dur);
    ParseSlotRoundTrip(m2, dur);
  }
}
