/**
 * PostgreSQL's `LIKE` / `ILIKE` pattern matching, as SQLAlchemy's
 * `column.ilike(pattern)` runs it: `%` matches any run of characters, `_`
 * any one character, and the default escape character `\` makes the next
 * pattern character literal. `ILIKE` compares both sides lower-cased.
 */
module Patterns {

  predicate IsMeta(c: char) {
    c == '%' || c == '_' || c == '\\'
  }

  /** A search term in which no character has a special meaning in a LIKE pattern. */
  predicate NoMeta(t: string) {
    forall i :: 0 <= i < |t| ==> !IsMeta(t[i])
  }

  /** Lower-casing of the letters A to Z; every other character is kept. */
  function LowerChar(c: char): (r: char)
    ensures ('A' <= c <= 'Z') ==> r as int == c as int + 32
    ensures !('A' <= c <= 'Z') ==> r == c
  {
    if 'A' <= c <= 'Z' then (c as int + 32) as char else c
  }

  function Lower(s: string): (r: string)
    ensures |r| == |s|
    ensures forall i :: 0 <= i < |s| ==> r[i] == LowerChar(s[i])
  {
    seq(|s|, i requires 0 <= i < |s| => LowerChar(s[i]))
  }

  /** `s LIKE p`. */
  function Like(s: string, p: string): bool
    decreases |s| + |p|
  {
    if p == [] then s == []
    else if p[0] == '%' then Like(s, p[1..]) || (s != [] && Like(s[1..], p))
    else if p[0] == '\\' && |p| >= 2 then s != [] && s[0] == p[1] && Like(s[1..], p[2..])
    else if p[0] == '_' then s != [] && Like(s[1..], p[1..])
    else s != [] && s[0] == p[0] && Like(s[1..], p[1..])
  }

  /** `s ILIKE p`. */
  function ILike(s: string, p: string): bool {
    Like(Lower(s), Lower(p))
  }

  /** The pattern f"%{t}%" built around a search term. */
  function SubstringPattern(t: string): (p: string)
    ensures |p| == |t| + 2 && p[0] == '%' && p[|p| - 1] == '%' && p[1..|p| - 1] == t
  {
    "%" + t + "%"
  }

  /** `t` occurs in `s` as a contiguous piece. */
  predicate Contains(s: string, t: string) {
    exists k :: 0 <= k <= |s| && t <= s[k..]
  }

  /** A lone `%` matches every string. */
  lemma {:induction false} LikeWildcard(s: string)
    ensures Like(s, "%")
    decreases |s|
  {
    if s != [] {
      LikeWildcard(s[1..]);
    }
  }

  /** For a term without metacharacters, `s LIKE t%` holds exactly when `t` is a prefix of `s`. */
  lemma {:induction false} LikePrefix(s: string, t: string)
    requires NoMeta(t)
    ensures Like(s, t + "%") <==> t <= s
    decreases |t|
  {
    if t == [] {
      assert t + "%" == "%";
      LikeWildcard(s);
    } else {
      assert (t + "%")[1..] == t[1..] + "%";
      assert NoMeta(t[1..]) by {
        forall i | 0 <= i < |t[1..]| ensures !IsMeta(t[1..][i]) {
          assert t[1..][i] == t[i + 1];
        }
      }
      assert !IsMeta(t[0]);
      if s != [] {
        LikePrefix(s[1..], t[1..]);
        assert (t <= s) <==> (t[0] == s[0] && t[1..] <= s[1..]);
      }
    }
  }

  /** A leading `%` lets the rest of the pattern match any suffix of `s`. */
  lemma {:induction false} LikeLeadingWildcard(s: string, q: string)
    ensures Like(s, "%" + q) <==> exists k :: 0 <= k <= |s| && Like(s[k..], q)
    decreases |s|
  {
    var p := "%" + q;
    assert p[1..] == q;
    assert s[0..] == s;
    if s != [] {
      LikeLeadingWildcard(s[1..], q);
      if exists k :: 0 <= k <= |s| && Like(s[k..], q) {
        var k :| 0 <= k <= |s| && Like(s[k..], q);
        if k > 0 {
          assert s[1..][k - 1..] == s[k..];
        }
      }
      if exists k :: 0 <= k <= |s[1..]| && Like(s[1..][k..], q) {
        var k :| 0 <= k <= |s[1..]| && Like(s[1..][k..], q);
        assert s[1..][k..] == s[k + 1..];
      }
    }
  }

  /** For a term without metacharacters, `s LIKE '%t%'` is substring search. */
  lemma SubstringPatternContains(s: string, t: string)
    requires NoMeta(t)
    ensures Like(s, SubstringPattern(t)) <==> Contains(s, t)
  {
    assert SubstringPattern(t) == "%" + (t + "%");
    LikeLeadingWildcard(s, t + "%");
    forall k | 0 <= k <= |s| ensures Like(s[k..], t + "%") <==> t <= s[k..] {
      LikePrefix(s[k..], t);
    }
  }

  /** Lower-casing keeps every metacharacter and adds none. */
  lemma LowerNoMeta(t: string)
    ensures NoMeta(Lower(t)) <==> NoMeta(t)
  {
  }

  /** Lower-casing the pattern f"%{t}%" lower-cases the term alone. */
  lemma LowerPattern(t: string)
    ensures Lower(SubstringPattern(t)) == SubstringPattern(Lower(t))
  {
  }

  /**
   * For a term without metacharacters, `s ILIKE '%t%'` holds exactly when
   * the lower-cased term occurs in the lower-cased string.
   */
  lemma ILikeIsCaseInsensitiveContains(s: string, t: string)
    requires NoMeta(t)
    ensures ILike(s, SubstringPattern(t)) <==> Contains(Lower(s), Lower(t))
  {
    LowerNoMeta(t);
    LowerPattern(t);
    SubstringPatternContains(Lower(s), Lower(t));
  }

  /** The term with an escape character put before each metacharacter, so that LIKE reads it literally. */
  function Escape(t: string): (r: string)
    ensures NoMeta(t) ==> r == t
    ensures |r| >= |t|
  {
    if t == [] then []
    else
      assert NoMeta(t) ==> NoMeta(t[1..]) by {
        if NoMeta(t) {
          forall i | 0 <= i < |t[1..]| ensures !IsMeta(t[1..][i]) {
            assert t[1..][i] == t[i + 1];
          }
        }
      }
      (if IsMeta(t[0]) then ['\\', t[0]] else [t[0]]) + Escape(t[1..])
  }

  /** `s LIKE escape(t) || '%'` holds exactly when `t` is a prefix of `s`, whatever `t` holds. */
  lemma {:induction false} LikeEscapedPrefix(s: string, t: string)
    ensures Like(s, Escape(t) + "%") <==> t <= s
    decreases |t|
  {
    if t == [] {
      assert Escape(t) + "%" == "%";
      LikeWildcard(s);
    } else {
      var head := if IsMeta(t[0]) then ['\\', t[0]] else [t[0]];
      var p := Escape(t) + "%";
      assert p == head + (Escape(t[1..]) + "%");
      assert p[|head|..] == Escape(t[1..]) + "%";
      if s != [] {
        LikeEscapedPrefix(s[1..], t[1..]);
        assert (t <= s) <==> (t[0] == s[0] && t[1..] <= s[1..]);
      }
    }
  }

  /** With the term escaped, `s LIKE '%t%'` is substring search for every term. */
  lemma EscapedPatternContains(s: string, t: string)
    ensures Like(s, SubstringPattern(Escape(t))) <==> Contains(s, t)
  {
    assert SubstringPattern(Escape(t)) == "%" + (Escape(t) + "%");
    LikeLeadingWildcard(s, Escape(t) + "%");
    forall k | 0 <= k <= |s| ensures Like(s[k..], Escape(t) + "%") <==> t <= s[k..] {
      LikeEscapedPrefix(s[k..], t);
    }
  }

  lemma LowerConcat(a: string, b: string)
    ensures Lower(a + b) == Lower(a) + Lower(b)
  {
  }

  /** Escaping and lower-casing commute. */
  lemma {:induction false} LowerEscape(t: string)
    ensures Lower(Escape(t)) == Escape(Lower(t))
    decreases |t|
  {
    if t != [] {
      var head := if IsMeta(t[0]) then ['\\', t[0]] else [t[0]];
      LowerConcat(head, Escape(t[1..]));
      LowerEscape(t[1..]);
      assert Lower(t)[1..] == Lower(t[1..]);
      assert IsMeta(Lower(t)[0]) <==> IsMeta(t[0]);
    }
  }

  /**
   * With the term escaped, `s ILIKE '%t%'` holds exactly when the lower-cased
   * term occurs in the lower-cased string, for every term.
   */
  lemma ILikeEscapedIsCaseInsensitiveContains(s: string, t: string)
    ensures ILike(s, SubstringPattern(Escape(t))) <==> Contains(Lower(s), Lower(t))
  {
    LowerEscape(t);
    LowerPattern(Escape(t));
    EscapedPatternContains(Lower(s), Lower(t));
  }

  /** A term `_` matches "Bob" although "Bob" does not contain an underscore. */
  lemma UnderscoreTermMatchesAnyCharacter()
    ensures ILike("Bob", SubstringPattern("_"))
    ensures !Contains(Lower("Bob"), Lower("_"))
  {
    var s := Lower("Bob");
    assert s == "bob";
    assert Lower(SubstringPattern("_")) == "%_%";
    assert Like("", "%");
    assert Like("ob", "%");
    assert Like("bob", "_%");
    assert Like("bob", "%_%");
    forall k | 0 <= k <= |s| ensures !("_" <= s[k..]) {
      if k < |s| {
        assert s[k..][0] == s[k];
      }
    }
  }
}
