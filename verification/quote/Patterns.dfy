/**
 The interpolation forms of `quote!` (`patches/quote/src/lib.rs`) token by token: what the rule
 table does with every beginning that a token sequence can have, spelled out with the tokens
 themselves.
 */
module Patterns {

  import opened Wrappers
  import opened Windows

  /** `#( ... )*`: a repetition without a separator, whatever follows. */
  lemma PlainRepetition(inner: seq<Token>, rest: seq<Token>)
    ensures EachToken([Punct("#"), Group(Parenthesis, inner), Punct("*")] + rest)
         == [Repeat(inner, None)] + EachToken(rest)
  {
    var ts := [Punct("#"), Group(Parenthesis, inner), Punct("*")] + rest;
    WindowsAreMuncher(ts);
    WindowsAreMuncher(rest);
    assert ts[3..] == rest;
  }

  /** `#( ... ) separator *`: a repetition with a separator, which may be any token but `*`. */
  lemma SeparatedRepetition(inner: seq<Token>, separator: Token, rest: seq<Token>)
    requires separator != Punct("*")
    ensures EachToken([Punct("#"), Group(Parenthesis, inner), separator, Punct("*")] + rest)
         == [Repeat(inner, Some(separator))] + EachToken(rest)
  {
    var ts := [Punct("#"), Group(Parenthesis, inner), separator, Punct("*")] + rest;
    WindowsAreMuncher(ts);
    WindowsAreMuncher(rest);
    assert ts[4..] == rest;
  }

  /** `#( ... )* *`: the second star is a token of its own. */
  lemma StarBehindRepetition(inner: seq<Token>, rest: seq<Token>)
    ensures EachToken([Punct("#"), Group(Parenthesis, inner), Punct("*"), Punct("*")] + rest)
         == [Repeat(inner, None), Push(Punct("*"))] + EachToken(rest)
  {
    var ts := [Punct("*")] + rest;
    PlainRepetition(inner, ts);
    Ordinary(Punct("*"), rest);
    assert [Punct("#"), Group(Parenthesis, inner), Punct("*")] + ts
        == [Punct("#"), Group(Parenthesis, inner), Punct("*"), Punct("*")] + rest;
  }

  /** `#name`: an interpolation. */
  lemma Interpolation(name: string, rest: seq<Token>)
    ensures EachToken([Punct("#"), Ident(name)] + rest) == [Interpolate(name)] + EachToken(rest)
  {
    var ts := [Punct("#"), Ident(name)] + rest;
    WindowsAreMuncher(ts);
    WindowsAreMuncher(rest);
    assert ts[2..] == rest;
  }

  /** A token other than `#` in front is pushed as it is. */
  lemma Ordinary(t: Token, rest: seq<Token>)
    requires t != Punct("#")
    ensures EachToken([t] + rest) == [Push(t)] + EachToken(rest)
  {
    var ts := [t] + rest;
    WindowsAreMuncher(ts);
    WindowsAreMuncher(rest);
    assert ts[1..] == rest;
  }

  /** `#` is pushed in front of anything but a name or a parenthesized group. */
  lemma PoundAlone(rest: seq<Token>)
    requires rest == [] || !(rest[0].Ident? || (rest[0].Group? && rest[0].delimiter == Parenthesis))
    ensures EachToken([Punct("#")] + rest) == [Push(Punct("#"))] + EachToken(rest)
  {
    var ts := [Punct("#")] + rest;
    WindowsAreMuncher(ts);
    WindowsAreMuncher(rest);
    assert ts[1..] == rest;
  }

  /** `#[ ... ]` and `#{ ... }` are no interpolations: the `#` and the group are pushed. */
  lemma OtherGroups(delimiter: Delimiter, inner: seq<Token>, rest: seq<Token>)
    requires delimiter == Bracket || delimiter == Brace
    ensures EachToken([Punct("#"), Group(delimiter, inner)] + rest)
         == [Push(Punct("#")), Push(Group(delimiter, inner))] + EachToken(rest)
  {
    var ts := [Group(delimiter, inner)] + rest;
    PoundAlone(ts);
    Ordinary(Group(delimiter, inner), rest);
    assert [Punct("#")] + ts == [Punct("#"), Group(delimiter, inner)] + rest;
  }

  /** `#( ... )` without a star in either place behind it is no repetition: both are pushed. */
  lemma GroupWithoutStar(inner: seq<Token>, rest: seq<Token>)
    requires rest == [] || rest[0] != Punct("*")
    requires |rest| < 2 || rest[1] != Punct("*")
    ensures EachToken([Punct("#"), Group(Parenthesis, inner)] + rest)
         == [Push(Punct("#")), Push(Group(Parenthesis, inner))] + EachToken(rest)
  {
    var ts := [Punct("#"), Group(Parenthesis, inner)] + rest;
    WindowsAreMuncher(ts);
    assert ts[1..] == [Group(Parenthesis, inner)] + rest;
    WindowsAreMuncher(ts[1..]);
    Ordinary(Group(Parenthesis, inner), rest);
  }

  lemma Nothing()
    ensures EachToken([]) == []
  {
    WindowsAreMuncher([]);
  }
}
