/** `escape_html` of the blog generator: five literal replacements applied
    in sequence, `&` first, so that the ampersands of the entities written
    by the later replacements are not escaped again. */
module HtmlEscape {
  import opened Strings

  /** The five characters that `escape_html` replaces. */
  const Specials: set<char> := {'&', '<', '>', '"', '\''}

  /** The entity `escape_html` writes for each special character. */
  function Entity(c: char): string
  {
    if c == '&' then "&amp;"
    else if c == '<' then "&lt;"
    else if c == '>' then "&gt;"
    else if c == '"' then "&quot;"
    else if c == '\'' then "&#39;"
    else [c]
  }

  /** The inverse chain: `&lt;`, `&gt;`, `&quot;` and `&#39;` are undone
      first and `&amp;` last. */
  function UnescapeHtml(html: string): string
  {
    ReplaceAll(ReplaceAll(ReplaceAll(ReplaceAll(ReplaceAll(
      html, "&lt;", "<"), "&gt;", ">"), "&quot;", "\""), "&#39;", "'"), "&amp;", "&")
  }

  /** An entity written by `escape_html` starts at index `i` of `s`. */
  predicate EntityAt(s: string, i: int)
  {
    MatchAt(s, "&amp;", i) || MatchAt(s, "&lt;", i) || MatchAt(s, "&gt;", i) ||
    MatchAt(s, "&quot;", i) || MatchAt(s, "&#39;", i)
  }

  // ---------------------------------------------------------------------
  // Reference definition: character by character, the characters in `m`
  // written as their entity and every other character kept.

  function EncodeChar(c: char, m: set<char>): string
  {
    if c in m then Entity(c) else [c]
  }

  function Encode(s: string, m: set<char>): string
  {
    if |s| == 0 then "" else EncodeChar(s[0], m) + Encode(s[1..], m)
  }

  lemma EntityShape(c: char)
    requires c in Specials
    ensures |Entity(c)| >= 4 && Entity(c)[0] == '&'
    ensures forall k :: 1 <= k < |Entity(c)| ==> Entity(c)[k] !in Specials
  {
  }

  /** Two distinct entities already differ in their second character. */
  lemma EntitiesDiffer(c: char, d: char)
    requires c in Specials && d in Specials && c != d
    ensures Entity(c)[1] != Entity(d)[1]
  {
  }

  lemma {:induction false} EncodeNothing(s: string, m: set<char>)
    requires forall k :: 0 <= k < |s| ==> s[k] !in m
    ensures Encode(s, m) == s
  {
    if |s| > 0 {
      EncodeNothing(s[1..], m);
      assert s == [s[0]] + s[1..];
    }
  }

  /** One forward replacement `.replace(x, Entity(x))` adds `x` to the
      encoded characters, provided no entity already written contains `x`. */
  lemma {:induction false} EscapeStep(s: string, m: set<char>, x: char)
    requires m <= Specials && x in Specials && x !in m
    requires x == '&' ==> m == {}
    ensures ReplaceAll(Encode(s, m), [x], Entity(x)) == Encode(s, m + {x})
  {
    if |s| > 0 {
      var rest := Encode(s[1..], m);
      var u := EncodeChar(s[0], m);
      assert Encode(s, m) == u + rest;
      EscapeStep(s[1..], m, x);
      if s[0] == x {
        assert u == [x];
        assert (u + rest)[..1] == [x];
        assert (u + rest)[1..] == rest;
      } else {
        if s[0] in m {
          EntityShape(s[0]);
          assert u[0] != x;
        }
        ReplaceAllSkip(u, rest, [x], Entity(x));
        assert EncodeChar(s[0], m + {x}) == u;
      }
    }
  }

  /** An entity other than `Entity(x)`, written before `rest`, passes the
      backward replacement of `Entity(x)` unchanged. */
  lemma UnescapeSkipEntity(c: char, x: char, rest: string)
    requires c in Specials && x in Specials && c != x
    ensures ReplaceAll(Entity(c) + rest, Entity(x), [x]) == Entity(c) + ReplaceAll(rest, Entity(x), [x])
  {
    EntityShape(c);
    EntityShape(x);
    EntitiesDiffer(c, x);
    ReplaceAllPastHead(Entity(c), rest, Entity(x), [x]);
  }

  /** One backward replacement `.replace(Entity(x), x)` removes `x` from the
      encoded characters, provided `&` is still encoded (so no bare `&`
      can start a false entity). */
  lemma {:induction false} UnescapeStep(s: string, m: set<char>, x: char)
    requires m <= Specials && x in m && '&' in m
    requires x == '&' ==> m == {'&'}
    ensures ReplaceAll(Encode(s, m), Entity(x), [x]) == Encode(s, m - {x})
  {
    if |s| > 0 {
      var rest := Encode(s[1..], m);
      var u := EncodeChar(s[0], m);
      var p := Entity(x);
      assert Encode(s, m) == u + rest;
      assert Encode(s, m - {x}) == EncodeChar(s[0], m - {x}) + Encode(s[1..], m - {x});
      UnescapeStep(s[1..], m, x);
      if s[0] == x {
        EntityShape(x);
        assert u == p;
        assert (u + rest)[..|p|] == p;
        assert (u + rest)[|p|..] == rest;
      } else if s[0] in m {
        UnescapeSkipEntity(s[0], x, rest);
        assert EncodeChar(s[0], m - {x}) == u;
      } else {
        EntityShape(x);
        assert u == [s[0]] && s[0] != '&';
        ReplaceAllSkip(u, rest, p, [x]);
        assert EncodeChar(s[0], m - {x}) == u;
      }
    }
  }

  /** `escape_html(text)`, as the chain of `str.replace` calls, `&` first.
      The chain agrees with the character-by-character reference: each
      replacement adds one character to those written as entities. */
  function EscapeHtml(text: string): (r: string)
    ensures r == Encode(text, Specials)
  {
    var m1: set<char> := {'&'};
    var m2: set<char> := {'&', '<'};
    var m3: set<char> := {'&', '<', '>'};
    var m4: set<char> := {'&', '<', '>', '"'};
    var s1 := ReplaceAll(text, "&", "&amp;");
    assert s1 == Encode(text, m1) by {
      EncodeNothing(text, {});
      EscapeStep(text, {}, '&');
      assert {} + {'&'} == m1;
    }
    var s2 := ReplaceAll(s1, "<", "&lt;");
    assert s2 == Encode(text, m2) by {
      EscapeStep(text, m1, '<');
      assert m1 + {'<'} == m2;
    }
    var s3 := ReplaceAll(s2, ">", "&gt;");
    assert s3 == Encode(text, m3) by {
      EscapeStep(text, m2, '>');
      assert m2 + {'>'} == m3;
    }
    var s4 := ReplaceAll(s3, "\"", "&quot;");
    assert s4 == Encode(text, m4) by {
      EscapeStep(text, m3, '"');
      assert m3 + {'"'} == m4;
    }
    var s5 := ReplaceAll(s4, "'", "&#39;");
    assert s5 == Encode(text, Specials) by {
      EscapeStep(text, m4, '\'');
      assert m4 + {'\''} == Specials;
    }
    s5
  }

  // The five backward replacements, one at a time, on the reference encoding.

  lemma UndoLt(text: string)
    ensures ReplaceAll(Encode(text, Specials), "&lt;", "<") == Encode(text, {'&', '>', '"', '\''})
  {
    UnescapeStep(text, Specials, '<');
    assert Specials - {'<'} == {'&', '>', '"', '\''};
  }

  lemma UndoGt(text: string)
    ensures ReplaceAll(Encode(text, {'&', '>', '"', '\''}), "&gt;", ">") == Encode(text, {'&', '"', '\''})
  {
    UnescapeStep(text, {'&', '>', '"', '\''}, '>');
    assert {'&', '>', '"', '\''} - {'>'} == {'&', '"', '\''};
  }

  lemma UndoQuot(text: string)
    ensures ReplaceAll(Encode(text, {'&', '"', '\''}), "&quot;", "\"") == Encode(text, {'&', '\''})
  {
    UnescapeStep(text, {'&', '"', '\''}, '"');
    assert {'&', '"', '\''} - {'"'} == {'&', '\''};
  }

  lemma UndoApos(text: string)
    ensures ReplaceAll(Encode(text, {'&', '\''}), "&#39;", "'") == Encode(text, {'&'})
  {
    UnescapeStep(text, {'&', '\''}, '\'');
    assert {'&', '\''} - {'\''} == {'&'};
  }

  lemma UndoAmp(text: string)
    ensures ReplaceAll(Encode(text, {'&'}), "&amp;", "&") == text
  {
    UnescapeStep(text, {'&'}, '&');
    assert {'&'} - {'&'} == {};
    EncodeNothing(text, {});
  }

  /** Undoing the four entities and then `&amp;` gives the input back. */
  lemma UnescapeEscape(text: string)
    ensures UnescapeHtml(EscapeHtml(text)) == text
  {
    UndoLt(text);
    UndoGt(text);
    UndoQuot(text);
    UndoApos(text);
    UndoAmp(text);
  }

  /** `c` is none of `<`, `>`, `"` and `'`. */
  predicate NotBare(c: char)
  {
    c != '<' && c != '>' && c != '"' && c != '\''
  }

  /** The reference encoding writes no `<`, `>`, `"` or `'`. */
  lemma {:induction false} EncodeNoBareSpecials(s: string)
    ensures forall k :: 0 <= k < |Encode(s, Specials)| ==> NotBare(Encode(s, Specials)[k])
  {
    if |s| > 0 {
      EncodeNoBareSpecials(s[1..]);
      var rest := Encode(s[1..], Specials);
      var u := EncodeChar(s[0], Specials);
      assert Encode(s, Specials) == u + rest;
      if s[0] in Specials {
        EntityShape(s[0]);
      }
      assert forall k :: 0 <= k < |u| ==> (u + rest)[k] == u[k];
      assert forall k :: 0 <= k < |u| ==> NotBare(u[k]);
      assert forall k :: |u| <= k < |u + rest| ==> (u + rest)[k] == rest[k - |u|];
    }
  }

  lemma EntityStartsEntity(c: char, t: string)
    requires c in Specials
    ensures EntityAt(Entity(c) + t, 0)
  {
    var w := Entity(c) + t;
    assert w[..|Entity(c)|] == Entity(c);
    assert MatchAt(w, Entity(c), 0);
  }

  lemma ShiftMatch(a: string, b: string, p: string, j: int)
    ensures MatchAt(b, p, j) ==> MatchAt(a + b, p, j + |a|)
  {
    if MatchAt(b, p, j) {
      assert (a + b)[j + |a|..j + |a| + |p|] == b[j..j + |p|];
    }
  }

  lemma ShiftEntity(a: string, b: string, j: int)
    requires EntityAt(b, j)
    ensures EntityAt(a + b, j + |a|)
  {
    ShiftMatch(a, b, "&amp;", j);
    ShiftMatch(a, b, "&lt;", j);
    ShiftMatch(a, b, "&gt;", j);
    ShiftMatch(a, b, "&quot;", j);
    ShiftMatch(a, b, "&#39;", j);
  }

  /** The first character's encoding writes an `&` only as the start of
      its entity. */
  lemma AmpersandsHead(c: char, rest: string)
    ensures forall i :: 0 <= i < |EncodeChar(c, Specials)| && (EncodeChar(c, Specials) + rest)[i] == '&' ==>
      EntityAt(EncodeChar(c, Specials) + rest, i)
  {
    var u := EncodeChar(c, Specials);
    if c in Specials {
      EntityShape(c);
      EntityStartsEntity(c, rest);
    }
    forall i | 0 <= i < |u| && (u + rest)[i] == '&'
      ensures EntityAt(u + rest, i)
    {
      assert (u + rest)[i] == u[i];
    }
  }

  /** An `&` of `rest` that starts an entity still does so after `u`. */
  lemma AmpersandsTail(u: string, rest: string)
    requires forall j :: 0 <= j < |rest| && rest[j] == '&' ==> EntityAt(rest, j)
    ensures forall i :: |u| <= i < |u + rest| && (u + rest)[i] == '&' ==> EntityAt(u + rest, i)
  {
    forall i | |u| <= i < |u + rest| && (u + rest)[i] == '&'
      ensures EntityAt(u + rest, i)
    {
      var j := i - |u|;
      assert rest[j] == (u + rest)[i];
      ShiftEntity(u, rest, j);
    }
  }

  /** Every `&` the reference encoding writes starts an entity. */
  lemma {:induction false} EncodeAmpersands(s: string)
    ensures forall i :: 0 <= i < |Encode(s, Specials)| && Encode(s, Specials)[i] == '&' ==>
      EntityAt(Encode(s, Specials), i)
  {
    if |s| > 0 {
      var rest := Encode(s[1..], Specials);
      var u := EncodeChar(s[0], Specials);
      assert Encode(s, Specials) == u + rest;
      EncodeAmpersands(s[1..]);
      AmpersandsHead(s[0], rest);
      AmpersandsTail(u, rest);
    }
  }

  /** The reference encoding never shortens, and keeps the length exactly
      when there is nothing to escape. */
  lemma {:induction false} EncodeLength(s: string)
    ensures |Encode(s, Specials)| >= |s|
    ensures |Encode(s, Specials)| == |s| <==> forall k :: 0 <= k < |s| ==> s[k] !in Specials
  {
    if |s| > 0 {
      EncodeLength(s[1..]);
      if s[0] in Specials {
        EntityShape(s[0]);
      }
      if forall k :: 0 <= k < |s| ==> s[k] !in Specials {
        assert forall k :: 0 <= k < |s[1..]| ==> s[1..][k] == s[k + 1];
      } else if forall k :: 0 <= k < |s[1..]| ==> s[1..][k] !in Specials {
        assert s[0] in Specials by {
          var k :| 0 <= k < |s| && s[k] in Specials;
          if k > 0 { assert s[1..][k - 1] == s[k]; }
        }
      }
    }
  }

  /** The five guarantees of `escape_html`: none of `<`, `>`, `"`, `'` remains,
      every `&` starts one of the five entities, the result is never
      shorter, and it is unchanged exactly when nothing needed escaping. */
  lemma EscapeHtmlSafe(text: string)
    ensures forall k :: 0 <= k < |EscapeHtml(text)| ==> NotBare(EscapeHtml(text)[k])
    ensures forall i :: 0 <= i < |EscapeHtml(text)| && EscapeHtml(text)[i] == '&' ==>
      EntityAt(EscapeHtml(text), i)
    ensures |EscapeHtml(text)| >= |text|
    ensures EscapeHtml(text) == text <==> forall k :: 0 <= k < |text| ==> text[k] !in Specials
  {
    EncodeNoBareSpecials(text);
    EncodeAmpersands(text);
    EncodeLength(text);
    if forall k :: 0 <= k < |text| ==> text[k] !in Specials {
      EncodeNothing(text, Specials);
    }
  }
}
