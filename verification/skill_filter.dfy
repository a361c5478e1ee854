/**
  * The skill filter of the resume listing. The query keeps a row when
  * `:skill ILIKE ANY (resumes.skills)` holds: some stored skill, read as an
  * ILIKE pattern, matches the requested skill. `ILike` models that operator
  * (with ASCII case folding), `FilterAsWritten` the filter built on it, and
  * `Filter` the intended filter, case-insensitive equality with a stored skill.
  * The two agree whenever no stored skill holds a wildcard or escape character.
  */
module SkillFilter {
  import opened Wrappers
  import opened Schemas

  /** ASCII lower-casing; every other character is left as it is. */
  function Lower(c: char): char
  {
    if 'A' <= c <= 'Z' then (c as int + 32) as char else c
  }

  /** Equality of two strings ignoring ASCII case. */
  predicate EqualsIgnoreCase(a: string, b: string)
  {
    |a| == |b| && forall i :: 0 <= i < |a| ==> Lower(a[i]) == Lower(b[i])
  }

  /**
    * `s ILIKE p`: `%` matches any run of characters, `_` any one character,
    * `\` makes the next pattern character literal, and every other character
    * matches itself ignoring case. The whole of `s` must be matched.
    */
  predicate ILike(s: string, p: string)
    ensures ILike(s, p) && '%' !in p ==> |s| <= |p|
    decreases |s| + |p|
  {
    if p == [] then s == []
    else if p[0] == '%' then ILike(s, p[1..]) || (s != [] && ILike(s[1..], p))
    else if p[0] == '_' then s != [] && ILike(s[1..], p[1..])
    else if p[0] == '\\' && |p| >= 2 then
      s != [] && Lower(s[0]) == Lower(p[1]) && ILike(s[1..], p[2..])
    else s != [] && Lower(s[0]) == Lower(p[0]) && ILike(s[1..], p[1..])
  }

  /** A pattern in which no character has a special meaning to ILIKE. */
  predicate IsLiteral(p: string)
  {
    forall i :: 0 <= i < |p| ==> p[i] != '%' && p[i] != '_' && p[i] != '\\'
  }

  lemma EqualsIgnoreCaseUnfold(s: string, p: string)
    requires s != [] && p != []
    ensures EqualsIgnoreCase(s, p) <==>
            Lower(s[0]) == Lower(p[0]) && EqualsIgnoreCase(s[1..], p[1..])
  {
  }

  /** On a pattern without special characters, ILIKE is case-insensitive equality. */
  lemma {:induction false} LiteralPatternIsEquality(s: string, p: string)
    requires IsLiteral(p)
    ensures ILike(s, p) <==> EqualsIgnoreCase(s, p)
    decreases |p|
  {
    if p != [] {
      assert p[0] != '%' && p[0] != '_' && p[0] != '\\';
      if s != [] {
        assert IsLiteral(p[1..]) by {
          forall i | 0 <= i < |p[1..]| ensures p[1..][i] != '%' && p[1..][i] != '_' && p[1..][i] != '\\' {
            assert p[1..][i] == p[i + 1];
          }
        }
        LiteralPatternIsEquality(s[1..], p[1..]);
        EqualsIgnoreCaseUnfold(s, p);
      }
    }
  }

  /** A lone `%` matches every string. */
  lemma {:induction false} PercentMatchesAll(s: string)
    ensures ILike(s, "%")
    decreases |s|
  {
    if s != [] {
      PercentMatchesAll(s[1..]);
    }
  }

  /** Some stored skill matches `skill` ignoring case (`skills` is not null). */
  predicate Matches(r: Resume, skill: string)
  {
    r.skills.Some? && exists i :: 0 <= i < |r.skills.value| && EqualsIgnoreCase(skill, r.skills.value[i])
  }

  /**
    * The filter as the query states it: some stored skill, used as a pattern,
    * matches. A null skills array matches nothing; a stored `%` matches every search.
    */
  predicate MatchesAsWritten(r: Resume, skill: string)
    ensures MatchesAsWritten(r, skill) ==> r.skills.Some? && |r.skills.value| > 0
    ensures r.skills.Some? && "%" in r.skills.value ==> MatchesAsWritten(r, skill)
  {
    PercentMatchesAll(skill);
    r.skills.Some? && exists i :: 0 <= i < |r.skills.value| && ILike(skill, r.skills.value[i])
  }

  /** No stored skill of `r` holds `%`, `_` or `\`. */
  predicate LiteralSkills(r: Resume)
  {
    r.skills.Some? ==> forall i :: 0 <= i < |r.skills.value| ==> IsLiteral(r.skills.value[i])
  }

  lemma MatchesAgree(r: Resume, skill: string)
    requires LiteralSkills(r)
    ensures MatchesAsWritten(r, skill) <==> Matches(r, skill)
  {
    if r.skills.Some? {
      forall i | 0 <= i < |r.skills.value|
        ensures ILike(skill, r.skills.value[i]) <==> EqualsIgnoreCase(skill, r.skills.value[i])
      {
        LiteralPatternIsEquality(skill, r.skills.value[i]);
      }
    }
  }

  /** The rows the query as written keeps, in their original order. */
  function FilterAsWritten(rs: seq<Resume>, skill: string): (r: seq<Resume>)
    ensures forall x :: x in r ==> x in rs && MatchesAsWritten(x, skill)
    ensures forall x :: x in rs && MatchesAsWritten(x, skill) ==> x in r
  {
    if rs == [] then []
    else (if MatchesAsWritten(rs[0], skill) then [rs[0]] else []) + FilterAsWritten(rs[1..], skill)
  }

  /** The rows holding `skill` ignoring case, in their original order. */
  function Filter(rs: seq<Resume>, skill: string): (r: seq<Resume>)
    ensures |r| <= |rs|
    ensures forall x :: x in r ==> x in rs && Matches(x, skill)
    ensures forall x :: x in rs && Matches(x, skill) ==> x in r
  {
    if rs == [] then []
    else (if Matches(rs[0], skill) then [rs[0]] else []) + Filter(rs[1..], skill)
  }

  /** The query as written keeps relative order too: it distributes over concatenation. */
  lemma {:induction false} FilterAsWrittenConcat(a: seq<Resume>, b: seq<Resume>, skill: string)
    ensures FilterAsWritten(a + b, skill) == FilterAsWritten(a, skill) + FilterAsWritten(b, skill)
    decreases |a|
  {
    if a != [] {
      assert (a + b)[1..] == a[1..] + b;
      FilterAsWrittenConcat(a[1..], b, skill);
    } else {
      assert a + b == b;
    }
  }

  /** Filtering keeps relative order: it distributes over concatenation. */
  lemma {:induction false} FilterConcat(a: seq<Resume>, b: seq<Resume>, skill: string)
    ensures Filter(a + b, skill) == Filter(a, skill) + Filter(b, skill)
    decreases |a|
  {
    if a != [] {
      assert (a + b)[1..] == a[1..] + b;
      FilterConcat(a[1..], b, skill);
    } else {
      assert a + b == b;
    }
  }

  /** A single row is kept exactly when it matches. */
  lemma FilterSingleton(x: Resume, skill: string)
    ensures Filter([x], skill) == if Matches(x, skill) then [x] else []
  {
  }

  /** When no stored skill holds a special character, the query as written keeps exactly the intended rows. */
  lemma {:induction false} FilterAgreesOnLiteralSkills(rs: seq<Resume>, skill: string)
    requires forall i :: 0 <= i < |rs| ==> LiteralSkills(rs[i])
    ensures FilterAsWritten(rs, skill) == Filter(rs, skill)
    decreases |rs|
  {
    if rs != [] {
      MatchesAgree(rs[0], skill);
      FilterAgreesOnLiteralSkills(rs[1..], skill);
    }
  }

  /**
    * A resume whose skills are `["%"]` is returned for a search on "java"
    * by the query as written, and not by the intended filter.
    */
  lemma WildcardSkillMatchesAnySearch()
    ensures var r := Resume(1, "Ann", "ann@example.com", "555", None, None, None, Some(["%"]));
            FilterAsWritten([r], "java") == [r] && Filter([r], "java") == []
  {
    var r := Resume(1, "Ann", "ann@example.com", "555", None, None, None, Some(["%"]));
    PercentMatchesAll("java");
    assert r.skills.value[0] == "%";
    assert MatchesAsWritten(r, "java");
    assert !EqualsIgnoreCase("java", "%");
    assert [r][1..] == [];
  }
}
