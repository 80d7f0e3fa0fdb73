/** SQL LIKE with a backslash escape, and the escaping of a literal prefix for it. */
module LikePattern {

  /** Whether s matches the pattern. A pattern that ends in its escape character is an error in SQL,
    * and matches nothing here. */
  predicate Like(s: string, pattern: string)
    decreases |pattern|, |s|
  {
    if pattern == "" then s == ""
    else if pattern[0] == '%' then Like(s, pattern[1..]) || (s != "" && Like(s[1..], pattern))
    else if s == "" then false
    else if pattern[0] == '_' then Like(s[1..], pattern[1..])
    else if pattern[0] == '\\' then |pattern| > 1 && s[0] == pattern[1] && Like(s[1..], pattern[2..])
    else s[0] == pattern[0] && Like(s[1..], pattern[1..])
  }

  predicate Special(c: char) {
    c == '%' || c == '_' || c == '\\'
  }

  function Escaped(c: char): string {
    if Special(c) then ['\\', c] else [c]
  }

  function EscapedAll(s: string): string {
    if s == "" then "" else Escaped(s[0]) + EscapedAll(s[1..])
  }

  function LikePrefix(prefix: string): string {
    EscapedAll(prefix) + "%"
  }

  lemma {:induction false} EscapedSnoc(s: string, c: char)
    ensures EscapedAll(s + [c]) == EscapedAll(s) + Escaped(c)
  {
    if s == "" {
      assert s + [c] == [c];
    } else {
      assert (s + [c])[1..] == s[1..] + [c];
      EscapedSnoc(s[1..], c);
    }
  }

  method EscapeLikePrefix(prefix: string) returns (escaped: string)
    ensures escaped == LikePrefix(prefix)
  {
    escaped := "";
    var i := 0;
    while i < |prefix|
      invariant 0 <= i <= |prefix|
      invariant escaped == EscapedAll(prefix[..i])
    {
      var character := prefix[i];
      assert prefix[..i + 1] == prefix[..i] + [character];
      EscapedSnoc(prefix[..i], character);
      if character == '%' || character == '_' || character == '\\' {
        escaped := escaped + "\\";
      }
      escaped := escaped + [character];
      i := i + 1;
    }
    assert prefix[..i] == prefix;
    escaped := escaped + "%";
  }

  lemma {:induction false} PercentMatchesAll(s: string)
    ensures Like(s, "%")
  {
    assert "%"[1..] == "";
    if s != "" {
      PercentMatchesAll(s[1..]);
    }
  }

  /** One literal character of the prefix takes one character of the name. */
  lemma EscapedTakesOne(s: string, c: char, rest: string)
    ensures Like(s, Escaped(c) + rest) <==> s != "" && s[0] == c && Like(s[1..], rest)
  {
    var p := Escaped(c) + rest;
    if Special(c) {
      assert p[0] == '\\' && p[1] == c && p[2..] == rest;
    } else {
      assert p[0] == c && p[1..] == rest;
    }
  }

  /** The names that match an escaped prefix under LIKE are exactly the names that start with it,
    * whatever wildcard characters the prefix holds. */
  lemma {:induction false} LikePrefixExact(name: string, prefix: string)
    ensures Like(name, LikePrefix(prefix)) <==> prefix <= name
  {
    if prefix == "" {
      assert EscapedAll(prefix) + "%" == "%";
      PercentMatchesAll(name);
    } else {
      var c, rest := prefix[0], prefix[1..];
      assert LikePrefix(prefix) == Escaped(c) + LikePrefix(rest);
      EscapedTakesOne(name, c, LikePrefix(rest));
      if name != "" {
        LikePrefixExact(name[1..], rest);
        assert prefix == [c] + rest && name == [name[0]] + name[1..];
        if prefix <= name {
          assert rest == name[1..][..|rest|];
        }
      }
    }
  }
}
