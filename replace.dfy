/**
 * `String.prototype.replace` with a global regular expression that matches one
 * character, as `escapeHtml` uses it five times (mini_app/script.js:530-534).
 */
module Replace {

  /**
   * `s.replace(/c/g, rep)` for a character `c` that matches itself (not a
   * regular-expression metacharacter) and a replacement `rep` without `$`, so
   * that no `$&`, `$$` or similar pattern is expanded: every occurrence of `c`,
   * left to right, becomes `rep`. Every use in the script is of this kind.
   */
  function ReplaceAll(s: string, c: char, rep: string): (r: string)
    ensures c !in s ==> r == s
    ensures c !in rep ==> c !in r
  {
    if s == [] then []
    else (if s[0] == c then rep else [s[0]]) + ReplaceAll(s[1..], c, rep)
  }

  /** Replacing one character at a time is the same on a string and on its pieces. */
  lemma {:induction false} ReplaceAllConcat(a: string, b: string, c: char, rep: string)
    ensures ReplaceAll(a + b, c, rep) == ReplaceAll(a, c, rep) + ReplaceAll(b, c, rep)
  {
    if a == [] {
      assert a + b == b;
    } else {
      assert (a + b)[0] == a[0];
      assert (a + b)[1..] == a[1..] + b;
      ReplaceAllConcat(a[1..], b, c, rep);
    }
  }

  /** On a single character the global replace is a substitution of that character. */
  lemma ReplaceAllSingle(x: char, c: char, rep: string)
    ensures ReplaceAll([x], c, rep) == if x == c then rep else [x]
  {
    assert [x][1..] == [];
  }
}
