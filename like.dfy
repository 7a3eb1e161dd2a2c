/** SQLite's built-in LIKE operator with no ESCAPE clause: `%` stands for any run of
    characters, `_` for exactly one, and the 26 ASCII letters compare without regard
    to case; every other character must match itself. */
module Like {

  /** The only case folding the built-in LIKE does: ASCII upper case to lower case. */
  function Fold(c: char): char {
    if 'A' <= c <= 'Z' then (c as int + 32) as char else c
  }

  /** `s LIKE p`. A pattern without wildcards matches exactly the texts equal to it
      up to ASCII case. */
  function Matches(p: string, s: string): (r: bool)
    ensures Plain(p) ==> (r <==> SameFolded(s, p))
    decreases |p| + |s|
  {
    if p == [] then s == []
    else if p[0] == '%' then Matches(p[1..], s) || (s != [] && Matches(p, s[1..]))
    else s != [] && (p[0] == '_' || Fold(p[0]) == Fold(s[0])) && Matches(p[1..], s[1..])
  }

  predicate Wildcard(c: char) {
    c == '%' || c == '_'
  }

  /** A search text with no wildcard in it. */
  predicate Plain(q: string) {
    forall i :: 0 <= i < |q| ==> !Wildcard(q[i])
  }

  /** Equal once both sides are folded to lower case. */
  predicate SameFolded(a: string, b: string) {
    |a| == |b| && forall i :: 0 <= i < |a| ==> Fold(a[i]) == Fold(b[i])
  }

  /** `q` occurs in `s` at position `i`, ignoring ASCII case. */
  predicate OccursAt(s: string, q: string, i: int) {
    0 <= i <= |s| - |q| && SameFolded(s[i..i + |q|], q)
  }

  /** `q` occurs somewhere in `s`, ignoring ASCII case. */
  predicate ContainsFolded(s: string, q: string) {
    exists i :: 0 <= i <= |s| - |q| && OccursAt(s, q, i)
  }

  /** A lone `%` matches every text. */
  lemma {:induction false} PercentMatchesAll(s: string)
    ensures Matches("%", s)
  {
    if s != [] {
      PercentMatchesAll(s[1..]);
    }
  }

  /** For a plain `q`, `s LIKE q%` holds exactly when `s` starts with `q` up to case. */
  lemma {:induction false} PrefixMatch(q: string, s: string)
    requires Plain(q)
    ensures Matches(q + "%", s) <==> |q| <= |s| && SameFolded(s[..|q|], q)
  {
    if q == [] {
      assert q + "%" == "%";
      PercentMatchesAll(s);
    } else {
      var p := q + "%";
      assert p[0] == q[0] && !Wildcard(q[0]);
      assert p[1..] == q[1..] + "%";
      assert Plain(q[1..]) by {
        forall i | 0 <= i < |q[1..]| ensures !Wildcard(q[1..][i]) {
          assert q[1..][i] == q[i + 1];
        }
      }
      if s != [] {
        PrefixMatch(q[1..], s[1..]);
        if |q| <= |s| {
          assert s[1..][..|q[1..]|] == s[..|q|][1..];
          if SameFolded(s[..|q|], q) {
            assert Fold(s[0]) == Fold(q[0]) by { assert s[..|q|][0] == s[0]; }
            assert SameFolded(s[1..][..|q[1..]|], q[1..]) by {
              forall i | 0 <= i < |q| - 1 ensures Fold(s[1..][..|q[1..]|][i]) == Fold(q[1..][i]) {
                assert s[..|q|][i + 1] == s[1..][..|q[1..]|][i];
              }
            }
          }
        }
      }
    }
  }

  /** A leading `%` lets the rest of the pattern match any suffix. */
  lemma {:induction false} LeadingPercent(r: string, s: string)
    ensures Matches("%" + r, s) <==> exists i :: 0 <= i <= |s| && Matches(r, s[i..])
  {
    var p := "%" + r;
    assert p[1..] == r;
    assert s[0..] == s;
    if s != [] {
      LeadingPercent(r, s[1..]);
      if exists i :: 0 <= i <= |s| && Matches(r, s[i..]) {
        var i :| 0 <= i <= |s| && Matches(r, s[i..]);
        if i > 0 {
          assert s[1..][i - 1..] == s[i..];
        }
      }
      if exists j :: 0 <= j <= |s| - 1 && Matches(r, s[1..][j..]) {
        var j :| 0 <= j <= |s| - 1 && Matches(r, s[1..][j..]);
        assert s[1..][j..] == s[j + 1..];
      }
    }
  }

  /** The search pattern `%q%` built from a plain `q` matches exactly the texts that
      contain `q` up to ASCII case. */
  lemma ContainsPattern(q: string, s: string)
    requires Plain(q)
    ensures Matches("%" + q + "%", s) <==> ContainsFolded(s, q)
  {
    assert "%" + q + "%" == "%" + (q + "%");
    LeadingPercent(q + "%", s);
    if ContainsFolded(s, q) {
      var i :| 0 <= i <= |s| - |q| && OccursAt(s, q, i);
      PrefixMatch(q, s[i..]);
      assert s[i..][..|q|] == s[i..i + |q|];
    }
    if Matches("%" + q + "%", s) {
      var i :| 0 <= i <= |s| && Matches(q + "%", s[i..]);
      PrefixMatch(q, s[i..]);
      assert s[i..][..|q|] == s[i..i + |q|];
      assert OccursAt(s, q, i);
    }
  }

  /** With an empty search text the pattern is `%%`, which matches every text. */
  lemma EmptyPatternMatchesAll(s: string)
    ensures Matches("%%", s)
  {
  }
}
