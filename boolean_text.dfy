/**
 * `Boolean.parseBoolean` and `String.valueOf(boolean)`: the text "true" in
 * any mix of upper and lower case reads as true; every other text, including
 * text that is not a boolean at all, reads as false. Reading never fails.
 */
module BooleanText {

  function ToLower(c: char): char {
    if 'A' <= c <= 'Z' then (c as int - 'A' as int + 'a' as int) as char else c
  }

  /** `String.equalsIgnoreCase` on the letters that can occur in "true". */
  predicate EqualsIgnoreCase(a: string, b: string) {
    |a| == |b| && forall i :: 0 <= i < |a| ==> ToLower(a[i]) == ToLower(b[i])
  }

  /** `Boolean.parseBoolean`: never fails; only four-letter text can read as true. */
  predicate ParseBoolean(s: string)
    ensures ParseBoolean(s) ==> |s| == 4
    ensures s == "true" ==> ParseBoolean(s)
  {
    EqualsIgnoreCase("true", s)
  }

  function BooleanToString(b: bool): string {
    if b then "true" else "false"
  }

  /** Reading back the text of a boolean gives the boolean. */
  lemma ParseBooleanToString(b: bool)
    ensures ParseBoolean(BooleanToString(b)) == b
  {
    if !b {
      assert |BooleanToString(b)| != 4;
    }
  }

  /** Exactly the four letters t, r, u, e in order, each in either case, read as true. */
  lemma ParseBooleanSpelling(s: string)
    ensures ParseBoolean(s) <==>
      |s| == 4 && s[0] in "tT" && s[1] in "rR" && s[2] in "uU" && s[3] in "eE"
  {
    if ParseBoolean(s) {
      assert ToLower(s[0]) == 't' && ToLower(s[1]) == 'r' && ToLower(s[2]) == 'u' && ToLower(s[3]) == 'e';
    }
    if |s| == 4 && s[0] in "tT" && s[1] in "rR" && s[2] in "uU" && s[3] in "eE" {
      forall i | 0 <= i < 4 ensures ToLower("true"[i]) == ToLower(s[i]) {
      }
    }
  }

}
