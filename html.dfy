/**
 * `escapeHtml` of the Mini App (mini_app/script.js:527-535): five chained global
 * replaces, `&` first, then `<`, `>`, `"` and `'`. The main theorem is that the
 * chain equals one left-to-right substitution of each character by its entity;
 * the safety properties and the round trip through `Unescape` follow from it.
 */
module Html {
  import opened JsValues
  import opened Replace

  const Amp: string := "&amp;"
  const Lt: string := "&lt;"
  const Gt: string := "&gt;"
  const Quot: string := "&quot;"
  const Apos: string := "&#039;"

  /** The five characters `escapeHtml` rewrites. */
  predicate IsSpecial(c: char) {
    c == '&' || c == '<' || c == '>' || c == '"' || c == '\''
  }

  predicate NoSpecials(s: string) {
    forall i | 0 <= i < |s| :: !IsSpecial(s[i])
  }

  /** The chain of replaces on a string (the body of `escapeHtml` past its guard). */
  function EscapeText(s: string): string {
    ReplaceAll(ReplaceAll(ReplaceAll(ReplaceAll(ReplaceAll(
      s, '&', Amp), '<', Lt), '>', Gt), '"', Quot), '\'', Apos)
  }

  /** `escapeHtml(unsafe)`: a falsy argument gives the empty string, a string is escaped. */
  function EscapeHtml(unsafe: JsValue): (r: string)
    ensures r == [] <==> !Truthy(unsafe)
    ensures Truthy(unsafe) ==> r == EscapeChars(unsafe.s)
    ensures NoRawSpecials(r)
    ensures Truthy(unsafe) && NoSpecials(unsafe.s) ==> r == unsafe.s
  {
    if !Truthy(unsafe) then []
    else
      PipelineIsMap(unsafe.s);
      EscapeCharsNonEmpty(unsafe.s);
      EscapeCharsPlain(unsafe.s);
      EscapeCharsNoRawSpecials(unsafe.s);
      EscapeText(unsafe.s)
  }

  /** The entity that a single character stands for in the output. */
  function EscapeChar(c: char): (r: string)
    ensures r != [] && (r[0] == '&' <==> IsSpecial(c))
    ensures forall i | 1 <= i < |r| :: r[i] != '&'
    ensures !IsSpecial(c) ==> r == [c]
  {
    match c
    case '&' => Amp
    case '<' => Lt
    case '>' => Gt
    case '"' => Quot
    case '\'' => Apos
    case _ => [c]
  }

  /** The reference definition: every character replaced by its entity, in order. */
  function EscapeChars(s: string): string {
    if s == [] then [] else EscapeChar(s[0]) + EscapeChars(s[1..])
  }

  lemma {:induction false} EscapeCharsNonEmpty(s: string)
    ensures |EscapeChars(s)| >= |s|
    ensures s != [] ==> EscapeChars(s) != []
  {
    if s != [] { EscapeCharsNonEmpty(s[1..]); }
  }

  lemma {:induction false} EscapeCharsPlain(s: string)
    ensures NoSpecials(s) ==> EscapeChars(s) == s
  {
    if s != [] && NoSpecials(s) {
      EscapeCharsPlain(s[1..]);
      assert s == [s[0]] + s[1..];
    }
  }

  /** None of `<`, `>`, `"` and `'` occurs; `&` may, as the start of an entity. */
  predicate NoRawSpecials(t: string) {
    '<' !in t && '>' !in t && '"' !in t && '\'' !in t
  }

  lemma {:induction false} EscapeCharsNoRawSpecials(s: string)
    ensures NoRawSpecials(EscapeChars(s))
  {
    if s != [] {
      EscapeCharsNoRawSpecials(s[1..]);
      var e := EscapeChar(s[0]);
      assert NoRawSpecials(e) by {
        assert '<' !in Amp && '>' !in Amp && '"' !in Amp && '\'' !in Amp;
      }
    }
  }

  /** Escaping is compositional: the chain of replaces distributes over concatenation. */
  lemma EscapeTextConcat(a: string, b: string)
    ensures EscapeText(a + b) == EscapeText(a) + EscapeText(b)
  {
    var a1, b1 := ReplaceAll(a, '&', Amp), ReplaceAll(b, '&', Amp);
    ReplaceAllConcat(a, b, '&', Amp);
    var a2, b2 := ReplaceAll(a1, '<', Lt), ReplaceAll(b1, '<', Lt);
    ReplaceAllConcat(a1, b1, '<', Lt);
    var a3, b3 := ReplaceAll(a2, '>', Gt), ReplaceAll(b2, '>', Gt);
    ReplaceAllConcat(a2, b2, '>', Gt);
    var a4, b4 := ReplaceAll(a3, '"', Quot), ReplaceAll(b3, '"', Quot);
    ReplaceAllConcat(a3, b3, '"', Quot);
    ReplaceAllConcat(a4, b4, '\'', Apos);
  }

  /**
   * On one character the chain yields that character's entity: an entity that
   * one pass introduces contains no character that a later pass rewrites.
   */
  lemma EscapeTextChar(c: char)
    ensures EscapeText([c]) == EscapeChar(c)
  {
    ReplaceAllSingle(c, '&', Amp);
    var s1 := ReplaceAll([c], '&', Amp);
    assert '<' !in Amp && '>' !in Amp && '"' !in Amp && '\'' !in Amp;
    assert '>' !in Lt && '"' !in Lt && '\'' !in Lt;
    assert '"' !in Gt && '\'' !in Gt;
    assert '\'' !in Quot;
    ReplaceAllSingle(c, '<', Lt);
    ReplaceAllSingle(c, '>', Gt);
    ReplaceAllSingle(c, '"', Quot);
    ReplaceAllSingle(c, '\'', Apos);
    if c == '&' {
      assert s1 == Amp;
    } else {
      assert s1 == [c];
      var s2 := ReplaceAll(s1, '<', Lt);
      if c == '<' {
        assert s2 == Lt;
      } else {
        assert s2 == [c];
        var s3 := ReplaceAll(s2, '>', Gt);
        if c == '>' {
          assert s3 == Gt;
        } else {
          assert s3 == [c];
          var s4 := ReplaceAll(s3, '"', Quot);
          if c == '"' {
            assert s4 == Quot;
          } else {
            assert s4 == [c];
          }
        }
      }
    }
  }

  /** The five chained global replaces equal the single per-character substitution. */
  lemma {:induction false} PipelineIsMap(s: string)
    ensures EscapeText(s) == EscapeChars(s)
  {
    if s != [] {
      assert s == [s[0]] + s[1..];
      EscapeTextConcat([s[0]], s[1..]);
      EscapeTextChar(s[0]);
      PipelineIsMap(s[1..]);
    }
  }

  /** The reference map distributes over concatenation as well. */
  lemma {:induction false} EscapeCharsConcat(a: string, b: string)
    ensures EscapeChars(a + b) == EscapeChars(a) + EscapeChars(b)
  {
    if a == [] {
      assert a + b == b;
    } else {
      assert (a + b)[0] == a[0];
      assert (a + b)[1..] == a[1..] + b;
      EscapeCharsConcat(a[1..], b);
    }
  }

  /** One of the five entities begins at position i of t. */
  predicate EntityAt(t: string, i: nat) {
    (i + |Amp| <= |t| && t[i..i + |Amp|] == Amp) ||
    (i + |Lt| <= |t| && t[i..i + |Lt|] == Lt) ||
    (i + |Gt| <= |t| && t[i..i + |Gt|] == Gt) ||
    (i + |Quot| <= |t| && t[i..i + |Quot|] == Quot) ||
    (i + |Apos| <= |t| && t[i..i + |Apos|] == Apos)
  }

  lemma SliceShift(u: string, k: nat, i: nat, n: nat)
    ensures k + i + n <= |u| ==> u[k + i..k + i + n] == u[k..][i..i + n]
  {
  }

  lemma EntityAtShift(p: string, t: string, i: nat)
    requires EntityAt(t, i)
    ensures EntityAt(p + t, |p| + i)
  {
    var u := p + t;
    assert u[|p|..] == t;
    SliceShift(u, |p|, i, 4);
    SliceShift(u, |p|, i, 5);
    SliceShift(u, |p|, i, 6);
  }

  lemma EntityAtPrefix(e: string, t: string)
    requires e in {Amp, Lt, Gt, Quot, Apos}
    ensures EntityAt(e + t, 0)
  {
    assert (e + t)[0..|e|] == e;
  }

  /**
   * Every `&` in the output begins one of the five entities, so decoding those
   * five is all the decoding the output needs. (That no entity is escaped twice
   * is `PipelineIsMap` together with `UnescapeEscape`.)
   */
  lemma {:induction false} AmpersandsStartEntities(s: string)
    ensures forall i | 0 <= i < |EscapeText(s)| && EscapeText(s)[i] == '&' :: EntityAt(EscapeText(s), i)
  {
    PipelineIsMap(s);
    AmpersandsStartEntitiesMap(s);
  }

  lemma {:induction false} AmpersandsStartEntitiesMap(s: string)
    ensures forall i | 0 <= i < |EscapeChars(s)| && EscapeChars(s)[i] == '&' :: EntityAt(EscapeChars(s), i)
  {
    if s != [] {
      var e, t := EscapeChar(s[0]), EscapeChars(s[1..]);
      AmpersandsStartEntitiesMap(s[1..]);
      assert EscapeChars(s) == e + t;
      forall i | 0 <= i < |e + t| && (e + t)[i] == '&'
        ensures EntityAt(e + t, i)
      {
        if i < |e| {
          assert i == 0 && IsSpecial(s[0]);
          EntityAtPrefix(e, t);
        } else {
          assert t[i - |e|] == '&';
          EntityAtShift(e, t, i - |e|);
        }
      }
    }
  }

  /** Decoding of the five entities, left to right; every other character is kept. */
  function Unescape(t: string): string
    decreases |t|
  {
    if t == [] then []
    else if |Amp| <= |t| && t[..|Amp|] == Amp then "&" + Unescape(t[|Amp|..])
    else if |Lt| <= |t| && t[..|Lt|] == Lt then "<" + Unescape(t[|Lt|..])
    else if |Gt| <= |t| && t[..|Gt|] == Gt then ">" + Unescape(t[|Gt|..])
    else if |Quot| <= |t| && t[..|Quot|] == Quot then "\"" + Unescape(t[|Quot|..])
    else if |Apos| <= |t| && t[..|Apos|] == Apos then "'" + Unescape(t[|Apos|..])
    else [t[0]] + Unescape(t[1..])
  }

  lemma UnescapeStep(c: char, t: string)
    ensures Unescape(EscapeChar(c) + t) == [c] + Unescape(t)
  {
    match c
    case '&' => UnescapeAmp(t);
    case '<' => UnescapeLt(t);
    case '>' => UnescapeGt(t);
    case '"' => UnescapeQuot(t);
    case '\'' => UnescapeApos(t);
    case _ =>
      var u := [c] + t;
      assert u[0] == c && u[1..] == t;
  }

  lemma UnescapeAmp(t: string)
    ensures Unescape(Amp + t) == "&" + Unescape(t)
  {
    var u := Amp + t;
    assert u[..|Amp|] == Amp && u[|Amp|..] == t;
  }

  lemma UnescapeLt(t: string)
    ensures Unescape(Lt + t) == "<" + Unescape(t)
  {
    var u := Lt + t;
    assert u[1] == 'l';
    assert |Amp| <= |u| ==> u[..|Amp|] != Amp by { assert Amp[1] == 'a'; }
    assert u[..|Lt|] == Lt && u[|Lt|..] == t;
  }

  lemma UnescapeGt(t: string)
    ensures Unescape(Gt + t) == ">" + Unescape(t)
  {
    var u := Gt + t;
    assert u[1] == 'g';
    assert |Amp| <= |u| ==> u[..|Amp|] != Amp by { assert Amp[1] == 'a'; }
    assert u[..|Lt|] != Lt by { assert Lt[1] == 'l'; }
    assert u[..|Gt|] == Gt && u[|Gt|..] == t;
  }

  lemma UnescapeQuot(t: string)
    ensures Unescape(Quot + t) == "\"" + Unescape(t)
  {
    var u := Quot + t;
    assert u[1] == 'q';
    assert u[..|Amp|] != Amp by { assert Amp[1] == 'a'; }
    assert u[..|Lt|] != Lt by { assert Lt[1] == 'l'; }
    assert u[..|Gt|] != Gt by { assert Gt[1] == 'g'; }
    assert u[..|Quot|] == Quot && u[|Quot|..] == t;
  }

  lemma UnescapeApos(t: string)
    ensures Unescape(Apos + t) == "'" + Unescape(t)
  {
    var u := Apos + t;
    assert u[1] == '#';
    assert u[..|Amp|] != Amp by { assert Amp[1] == 'a'; }
    assert u[..|Lt|] != Lt by { assert Lt[1] == 'l'; }
    assert u[..|Gt|] != Gt by { assert Gt[1] == 'g'; }
    assert u[..|Quot|] != Quot by { assert Quot[1] == 'q'; }
    assert u[..|Apos|] == Apos && u[|Apos|..] == t;
  }

  /** Decoding the entities recovers the input: nothing is lost and nothing is escaped twice. */
  lemma {:induction false} UnescapeEscape(s: string)
    ensures Unescape(EscapeText(s)) == s
  {
    PipelineIsMap(s);
    UnescapeEscapeChars(s);
  }

  lemma {:induction false} UnescapeEscapeChars(s: string)
    ensures Unescape(EscapeChars(s)) == s
  {
    if s != [] {
      UnescapeStep(s[0], EscapeChars(s[1..]));
      UnescapeEscapeChars(s[1..]);
      assert s == [s[0]] + s[1..];
    }
  }

  /** Two different strings never escape to the same HTML. */
  lemma EscapeInjective(a: string, b: string)
    requires EscapeText(a) == EscapeText(b)
    ensures a == b
  {
    UnescapeEscape(a);
    UnescapeEscape(b);
  }
}
