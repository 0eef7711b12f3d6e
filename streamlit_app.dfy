/**
 * `render_stars` of `app/ui/streamlit_app.py`: a score shown as a row of
 * filled and empty star glyphs followed by the label " (score/max)".
 *
 * The score arrives already converted: `Some(n)` is the integer that
 * `int(round(float(score)))` produced, `None` a score whose conversion
 * raised, which the source replaces by 0.
 */
module StreamlitApp {
  import opened Wrappers
  import opened Text

  /** U+2B50, the filled star. */
  const FilledStar: char := '\U{2B50}'

  /** U+2606, the empty star. */
  const EmptyStar: char := '\U{2606}'

  /** `max_stars` when the caller gives none. */
  const DefaultMaxStars := 5

  /** The score used for rendering: the converted score, or 0. */
  function StarScore(score: Option<int>): int {
    score.GetOr(0)
  }

  /** `f" ({score}/{max_stars})"`. */
  function Label(score: int, maxStars: int): string {
    " (" + IntToDecimal(score) + "/" + IntToDecimal(maxStars) + ")"
  }

  /** `"⭐" * score + "☆" * (max_stars - score)` followed by the label; a
      repetition by a count of zero or less is empty. */
  function RenderStars(score: Option<int>, maxStars: int := DefaultMaxStars): (r: string)
    ensures var s := StarScore(score);
      |r| == (if s > 0 then s else 0) + (if maxStars - s > 0 then maxStars - s else 0) + |Label(s, maxStars)|
    ensures var s := StarScore(score);
      r[|r| - |Label(s, maxStars)|..] == Label(s, maxStars)
  {
    var s := StarScore(score);
    var stars := Repeat(FilledStar, s) + Repeat(EmptyStar, maxStars - s);
    assert (stars + Label(s, maxStars))[|stars|..] == Label(s, maxStars);
    stars + Label(s, maxStars)
  }

  /** The label holds no star glyph. */
  lemma {:induction false} LabelHasNoStar(score: int, maxStars: int, c: char)
    requires c == FilledStar || c == EmptyStar
    ensures Occurrences(Label(score, maxStars), c) == 0
  {
    IntToDecimalRoundTrip(score);
    IntToDecimalRoundTrip(maxStars);
    var a, b := IntToDecimal(score), IntToDecimal(maxStars);
    assert c !in a by {
      forall i | 0 <= i < |a| ensures a[i] != c {
        if i > 0 { assert IsDigit(a[i]); }
      }
    }
    assert c !in b by {
      forall i | 0 <= i < |b| ensures b[i] != c {
        if i > 0 { assert IsDigit(b[i]); }
      }
    }
    OccurrencesAbsent(Label(score, maxStars), c);
  }

  /** A star glyph occurs only in the two runs of stars, not in the label. */
  lemma {:induction false} GlyphOccurrences(score: Option<int>, maxStars: int, c: char)
    requires c == FilledStar || c == EmptyStar
    ensures var s := StarScore(score);
      Occurrences(RenderStars(score, maxStars), c) ==
        Occurrences(Repeat(FilledStar, s), c) + Occurrences(Repeat(EmptyStar, maxStars - s), c)
  {
    var s := StarScore(score);
    var filled, empty, suffix := Repeat(FilledStar, s), Repeat(EmptyStar, maxStars - s), Label(s, maxStars);
    assert RenderStars(score, maxStars) == (filled + empty) + suffix;
    OccurrencesAppend(filled + empty, suffix, c);
    OccurrencesAppend(filled, empty, c);
    LabelHasNoStar(s, maxStars, c);
  }

  /** The filled stars number the score when it is positive, the empty stars
      the shortfall to `max_stars` when there is one; there are no others. */
  lemma {:induction false} StarCounts(score: Option<int>, maxStars: int)
    ensures var s := StarScore(score);
      Occurrences(RenderStars(score, maxStars), FilledStar) == (if s > 0 then s else 0)
    ensures var s := StarScore(score);
      Occurrences(RenderStars(score, maxStars), EmptyStar) == (if maxStars - s > 0 then maxStars - s else 0)
  {
    var s := StarScore(score);
    GlyphOccurrences(score, maxStars, FilledStar);
    GlyphOccurrences(score, maxStars, EmptyStar);
    OccurrencesInRepeat(FilledStar, s, FilledStar);
    OccurrencesInRepeat(EmptyStar, maxStars - s, FilledStar);
    OccurrencesInRepeat(FilledStar, s, EmptyStar);
    OccurrencesInRepeat(EmptyStar, maxStars - s, EmptyStar);
  }

  /** A score from 0 to `max_stars`: exactly `max_stars` glyphs, the first
      `score` of them filled and the rest empty, then the label. */
  lemma {:induction false} RenderInRange(score: int, maxStars: int)
    requires 0 <= score <= maxStars
    ensures var r := RenderStars(Some(score), maxStars);
      && |r| == maxStars + |Label(score, maxStars)|
      && (forall i :: 0 <= i < score ==> r[i] == FilledStar)
      && (forall i :: score <= i < maxStars ==> r[i] == EmptyStar)
      && r[maxStars..] == Label(score, maxStars)
  {
    var r := RenderStars(Some(score), maxStars);
    var filled, empty := Repeat(FilledStar, score), Repeat(EmptyStar, maxStars - score);
    assert r == filled + empty + Label(score, maxStars);
    forall i | 0 <= i < score ensures r[i] == FilledStar {
      assert r[i] == filled[i];
    }
    forall i | score <= i < maxStars ensures r[i] == EmptyStar {
      assert r[i] == empty[i - score];
    }
  }

  /** A score that could not be converted shows five empty stars and " (0/5)". */
  lemma {:induction false} RenderUnconvertible()
    ensures RenderStars(None) == "\U{2606}\U{2606}\U{2606}\U{2606}\U{2606} (0/5)"
  {
    assert IntToDecimal(0) == "0" && IntToDecimal(5) == "5";
    assert Repeat(EmptyStar, 5) == "\U{2606}\U{2606}\U{2606}\U{2606}\U{2606}" by {
      assert Repeat(EmptyStar, 1) == [EmptyStar];
      assert Repeat(EmptyStar, 2) == [EmptyStar, EmptyStar];
      assert Repeat(EmptyStar, 3) == [EmptyStar, EmptyStar, EmptyStar];
      assert Repeat(EmptyStar, 4) == [EmptyStar, EmptyStar, EmptyStar, EmptyStar];
    }
  }

  /** A score above `max_stars` shows that many filled stars and no empty one. */
  lemma {:induction false} RenderAboveMax(score: int, maxStars: int)
    requires score > maxStars && score > 0
    ensures var r := RenderStars(Some(score), maxStars);
      && (forall i :: 0 <= i < score ==> r[i] == FilledStar)
      && r[score..] == Label(score, maxStars)
      && Occurrences(r, EmptyStar) == 0
  {
    var r := RenderStars(Some(score), maxStars);
    var filled := Repeat(FilledStar, score);
    assert Repeat(EmptyStar, maxStars - score) == [];
    assert r == filled + Label(score, maxStars);
    forall i | 0 <= i < score ensures r[i] == FilledStar {
      assert r[i] == filled[i];
    }
    StarCounts(Some(score), maxStars);
  }

  /** For a score of at least 0, the number in the label, read back, is the
      number of filled stars. */
  lemma {:induction false} LabelCountsFilledStars(score: Option<int>, maxStars: int)
    requires StarScore(score) >= 0
    ensures var r := RenderStars(score, maxStars);
      var digits := IntToDecimal(StarScore(score));
      && r[|r| - |Label(StarScore(score), maxStars)|..][..2 + |digits|] == " (" + digits
      && (forall i :: 0 <= i < |digits| ==> IsDigit(digits[i]))
      && DecimalValue(digits) == Occurrences(r, FilledStar)
  {
    var s := StarScore(score);
    var digits := IntToDecimal(s);
    IntToDecimalRoundTrip(s);
    DecimalRoundTrip(s);
    StarCounts(score, maxStars);
    var suffix := Label(s, maxStars);
    assert suffix[..2 + |digits|] == " (" + digits;
  }
}
