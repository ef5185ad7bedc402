/**
 * The JavaScript values the Mini App reads out of the JSON its back end
 * returns (mini_app/script.js): a field is absent, `null` or a string.
 */
module JsValues {

  datatype JsValue = Undefined | Null | Str(s: string)

  /** JavaScript truthiness on these values: only a non-empty string is truthy. */
  predicate Truthy(v: JsValue) {
    v.Str? && v.s != []
  }

  /**
   * The string that `vs[0] || vs[1] || ... || fallback` evaluates to: `||`
   * yields its left operand when that is truthy and its right operand otherwise,
   * so the chain yields the first truthy value, or the fallback literal.
   */
  function FirstTruthy(vs: seq<JsValue>, fallback: string): (r: string)
    ensures (forall i | 0 <= i < |vs| :: !Truthy(vs[i])) ==> r == fallback
    ensures forall i | 0 <= i < |vs| && Truthy(vs[i]) && (forall j | 0 <= j < i :: !Truthy(vs[j])) ::
              r == vs[i].s
    ensures r == fallback || exists i | 0 <= i < |vs| :: Truthy(vs[i]) && r == vs[i].s
    ensures fallback != [] ==> r != []
  {
    if vs == [] then fallback
    else if Truthy(vs[0]) then vs[0].s
    else
      var r := FirstTruthy(vs[1..], fallback);
      assert forall i | 1 <= i < |vs| :: vs[i] == vs[1..][i - 1];
      r
  }
}
