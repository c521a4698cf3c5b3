/**
  The one piece of JavaScript string behaviour the handler relies on:
  `String.prototype.includes`, a substring test.
 */
module JsString {

  /** `sub` occurs in `s` at position `i`. */
  ghost predicate OccursAt(sub: string, s: string, i: int) {
    0 <= i <= |s| - |sub| && s[i..i + |sub|] == sub
  }

  /** Reference definition of a substring: `sub` occurs somewhere in `s`. */
  ghost predicate Occurs(sub: string, s: string) {
    exists i :: OccursAt(sub, s, i)
  }

  /** `s.includes(sub)`: true exactly when `sub` occurs in `s` (the empty string occurs everywhere). */
  function Includes(s: string, sub: string): (b: bool)
    ensures b <==> Occurs(sub, s)
    decreases |s|
  {
    if |sub| <= |s| && s[..|sub|] == sub then
      assert OccursAt(sub, s, 0);
      true
    else if |s| == 0 then
      false
    else
      var rest := Includes(s[1..], sub);
      if rest then
        assert Occurs(sub, s) by {
          var i :| OccursAt(sub, s[1..], i);
          assert s[i + 1..i + 1 + |sub|] == s[1..][i..i + |sub|];
          assert OccursAt(sub, s, i + 1);
        }
        true
      else
        assert !Occurs(sub, s) by {
          forall i | OccursAt(sub, s, i) ensures false {
            if i > 0 {
              assert s[1..][i - 1..i - 1 + |sub|] == s[i..i + |sub|];
              assert OccursAt(sub, s[1..], i - 1);
            }
          }
        }
        false
  }

  /** Whatever is spliced into a template occurs in the resulting string. */
  lemma OccursInTemplate(prefix: string, x: string, suffix: string)
    ensures Occurs(x, prefix + x + suffix)
  {
    var s := prefix + x + suffix;
    assert s[|prefix|..|prefix| + |x|] == x;
    assert OccursAt(x, s, |prefix|);
  }
}
