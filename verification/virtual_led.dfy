/** The twin's view of the physical LED: its on/off state and the power it
    last reported. */
module VirtualLed {

  datatype LedState = On | Off

  /** Last-write-wins projection of the most recent update. */
  datatype LedView = LedView(state: LedState, power: real)

  /** The view before any update has arrived: off, drawing nothing. */
  const InitialView: LedView := LedView(Off, 0.0)

  /** `p` occurs in `s` as a contiguous block starting at index `i`. */
  ghost predicate OccursAt(s: string, p: string, i: int) {
    0 <= i && i + |p| <= |s| && s[i..i + |p|] == p
  }

  /** Substring containment, as the `in` operator on two strings. */
  ghost predicate IsSubstring(s: string, p: string) {
    exists i :: OccursAt(s, p, i)
  }

  /** Executable substring test: `p` is a prefix of `s` or occurs in its tail. */
  function Contains(s: string, p: string): bool
    decreases |s|
  {
    if |s| < |p| then false
    else s[..|p|] == p || Contains(s[1..], p)
  }

  /** A block of the tail of `s` is the block one position further in `s`. */
  lemma TailSlice(s: string, i: nat, n: nat)
    requires i + n + 1 <= |s|
    ensures s[1..][i..i + n] == s[i + 1..i + 1 + n]
  {
  }

  /** The executable test agrees with substring containment in both
      directions. */
  lemma {:induction false} ContainsIsSubstring(s: string, p: string)
    ensures Contains(s, p) <==> IsSubstring(s, p)
    decreases |s|
  {
    if |s| < |p| {
      // no index leaves room for `p`, and `Contains` is false
    } else if s[..|p|] == p {
      assert OccursAt(s, p, 0);
    } else {
      ContainsIsSubstring(s[1..], p);
      if IsSubstring(s[1..], p) {
        var i :| OccursAt(s[1..], p, i);
        TailSlice(s, i, |p|);
        assert OccursAt(s, p, i + 1);
      }
      if IsSubstring(s, p) {
        var i :| OccursAt(s, p, i);
        assert i != 0;
        TailSlice(s, i - 1, |p|);
        assert OccursAt(s[1..], p, i - 1);
      }
    }
  }

  /** The LED state an update's state text denotes: on exactly when the text
      contains `"ON"` anywhere (so `"LED_STATE.ON"` is on), off otherwise. */
  function StateFromText(text: string): (r: LedState)
    ensures r == On <==> IsSubstring(text, "ON")
    ensures r == Off <==> !IsSubstring(text, "ON")
  {
    ContainsIsSubstring(text, "ON");
    if Contains(text, "ON") then On else Off
  }
}
