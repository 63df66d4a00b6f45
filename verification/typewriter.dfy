/** The typewriter span of the hero terminal: it shows a growing prefix of
    its text, one character per timer tick, and reports completion once the
    whole text is shown. React runs a commit's effects in order against
    that commit's state, so a reset made by the first effect is seen by the
    second one only in the next render; completions are counted per
    event. */
module Typewriter {
  import opened Common

  datatype Typewriter = Typewriter(text: String, display: String, index: nat)

  /** The state kept between renders: the shown text is the first `index`
      characters. */
  predicate Typed(tw: Typewriter) {
    tw.index <= |tw.text| && tw.display == tw.text[..tw.index]
  }

  /** A fresh typewriter; an empty text completes at once. */
  function Mount(text: String): (r: (Typewriter, nat))
    ensures Typed(r.0) && r.0.display == [] && r.0.text == text
    ensures r.1 == (if text == [] then 1 else 0)
  {
    (Typewriter(text, [], 0), if |text| == 0 then 1 else 0)
  }

  /** The pending timeout fires: one more character is shown. The timer is
      set only while characters remain; when the last one is shown the next
      render's effect reports completion. */
  function Tick(tw: Typewriter): (r: (Typewriter, nat))
    ensures Typed(tw) ==> Typed(r.0)
    ensures r.0.text == tw.text
    ensures Typed(tw) && tw.index < |tw.text| ==> r.0.index == tw.index + 1
    ensures Typed(tw) ==> (r.1 == 1 <==> tw.index + 1 == |tw.text|) && r.1 <= 1
  {
    if tw.index < |tw.text| then
      var next := tw.(display := tw.display + [tw.text[tw.index]], index := tw.index + 1);
      assert tw.text[..tw.index + 1] == tw.text[..tw.index] + [tw.text[tw.index]];
      (next, if tw.index + 1 == |tw.text| then 1 else 0)
    else (tw, 0)
  }

  /** `n` ticks in a row, with the completions they report. */
  function Ticks(tw: Typewriter, n: nat): (r: (Typewriter, nat))
    decreases n
  {
    if n == 0 then (tw, 0)
    else
      var (a, c) := Tick(tw);
      var (b, d) := Ticks(a, n - 1);
      (b, c + d)
  }

  /** From a typed state, `n` ticks show `n` more characters (up to the
      whole text) and report completion exactly when they reach the end. */
  lemma {:induction false} TicksAdvance(tw: Typewriter, n: nat)
    requires Typed(tw)
    ensures var r := Ticks(tw, n);
            && Typed(r.0) && r.0.text == tw.text
            && r.0.index == Min(|tw.text|, tw.index + n)
            && r.1 == (if tw.index < |tw.text| <= tw.index + n then 1 else 0)
    decreases n
  {
    if n > 0 {
      var (a, c) := Tick(tw);
      TicksAdvance(a, n - 1);
    }
  }

  /** A mounted typewriter shows its whole text after one tick per
      character, and reports completion exactly once on the way. */
  lemma {:induction false} TypesWholeText(text: String)
    ensures var (tw, c0) := Mount(text);
            var (r, c1) := Ticks(tw, |text|);
            r.display == text && c0 + c1 == 1
  {
    var (tw, c0) := Mount(text);
    TicksAdvance(tw, |text|);
    assert text[..|text|] == text;
  }

  /** The `text` prop changes, as the component is written: the first
      effect resets the state while the second, in the same commit, still
      compares the old index with the new length, and the reset render
      reruns the second effect only when the index moved. */
  function TextChanged(tw: Typewriter, t: String): (r: (Typewriter, nat))
    ensures t != tw.text ==> Typed(r.0) && r.0.text == t && r.0.display == []
    ensures t == tw.text ==> r == (tw, 0)
  {
    if t == tw.text then (tw, 0)
    else
      var stale := if tw.index == |t| then 1 else 0;
      var rerun := if tw.index != 0 && |t| == 0 then 1 else 0;
      (Typewriter(t, [], 0), stale + rerun)
  }

  /** A re-render of the caller that passes a new `onComplete` function, as
      the terminal does on every render: the second effect runs again, so a
      pending tick is cleared and set afresh, and a finished typewriter
      reports completion once more. Nothing shown changes. */
  function Rerender(tw: Typewriter): (r: (Typewriter, nat))
    ensures r.0 == tw
    ensures Typed(tw) ==> (r.1 == 1 <==> tw.index == |tw.text|) && r.1 <= 1
  {
    (tw, if tw.index < |tw.text| then 0 else 1)
  }

  /** So, under such a caller, every re-render after the end reports
      completion again, while re-renders during typing report nothing and
      leave the shown prefix as it was. */
  lemma {:induction false} RerendersRepeatCompletion(text: String)
    ensures var (tw, _) := Mount(text);
            var (done, _) := Ticks(tw, |text|);
            Rerender(done).1 == 1 && Rerender(Rerender(done).0).1 == 1
    ensures var (tw, _) := Mount(text);
            forall n: nat :: n < |text| ==> Rerender(Ticks(tw, n).0).1 == 0
  {
    var (tw, _) := Mount(text);
    TicksAdvance(tw, |text|);
    forall n: nat | n < |text|
      ensures Rerender(Ticks(tw, n).0).1 == 0
    {
      TicksAdvance(tw, n);
    }
  }

  /** A typewriter that has finished "abc" and is handed "xyz" reports
      completion before showing a single character of the new text. */
  lemma {:induction false} StaleCompletion()
    ensures var tw := Typewriter("abc", "abc", 3);
            Typed(tw)
            && TextChanged(tw, "xyz").1 == 1
            && TextChanged(tw, "xyz").0.display != "xyz"
  {
  }

  /** The change as intended: the new text starts from nothing, and
      completion is reported at once only if there is nothing to type. */
  function FixedTextChanged(tw: Typewriter, t: String): (r: (Typewriter, nat))
    ensures t != tw.text ==> Typed(r.0) && r.0.text == t && r.0.display == []
    ensures t == tw.text ==> r == (tw, 0)
  {
    if t == tw.text then (tw, 0)
    else Mount(t)
  }

  /** With the corrected change, every completion report means the whole
      current text is on screen; the written change differs from it exactly
      when the new text is non-empty and as long as the old index. */
  lemma {:induction false} FixedCompletionMeansTyped(tw: Typewriter, t: String)
    ensures FixedTextChanged(tw, t).1 > 0 ==> FixedTextChanged(tw, t).0.display == t
    ensures TextChanged(tw, t).1 != FixedTextChanged(tw, t).1 <==> t != tw.text && t != [] && tw.index == |t|
  {
  }
}
