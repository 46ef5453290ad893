/** Python's whitespace handling: `str.isspace`, `str.strip` and `str.split()`. */
module Text {
  predicate IsSpace(c: char) {
    var n := c as int;
    || 0x09 <= n <= 0x0D || 0x1C <= n <= 0x20 || n == 0x85 || n == 0xA0 || n == 0x1680
    || 0x2000 <= n <= 0x200A || n == 0x2028 || n == 0x2029 || n == 0x202F || n == 0x205F || n == 0x3000
  }

  function Flush(token: string): seq<string> {
    if token == "" then [] else [token]
  }

  function SplitFrom(s: string, token: string): seq<string> {
    if s == "" then Flush(token)
    else if IsSpace(s[0]) then Flush(token) + SplitFrom(s[1..], "")
    else SplitFrom(s[1..], token + [s[0]])
  }

  function Split(s: string): seq<string> {
    SplitFrom(s, "")
  }

  function StripLeft(s: string): string {
    if s != "" && IsSpace(s[0]) then StripLeft(s[1..]) else s
  }

  function StripRight(s: string): string {
    if s != "" && IsSpace(s[|s| - 1]) then StripRight(s[..|s| - 1]) else s
  }

  function Strip(s: string): string {
    StripRight(StripLeft(s))
  }

  function NonSpace(s: string): string {
    if s == "" then ""
    else (if IsSpace(s[0]) then "" else [s[0]]) + NonSpace(s[1..])
  }

  function Concat(parts: seq<string>): string {
    if parts == [] then "" else parts[0] + Concat(parts[1..])
  }

  lemma {:induction false} ConcatAppend(parts: seq<string>, more: seq<string>)
    ensures Concat(parts + more) == Concat(parts) + Concat(more)
  {
    if parts == [] {
      assert parts + more == more;
    } else {
      assert (parts + more)[1..] == parts[1..] + more;
      ConcatAppend(parts[1..], more);
    }
  }

  lemma {:induction false} NonSpaceAppend(s: string, t: string)
    ensures NonSpace(s + t) == NonSpace(s) + NonSpace(t)
  {
    if s == "" {
      assert s + t == t;
    } else {
      assert (s + t)[1..] == s[1..] + t;
      NonSpaceAppend(s[1..], t);
    }
  }

  predicate SpaceFree(s: string) {
    forall i :: 0 <= i < |s| ==> !IsSpace(s[i])
  }

  lemma {:induction false} NonSpaceOfSpaceFree(s: string)
    requires SpaceFree(s)
    ensures NonSpace(s) == s
  {
    if s != "" {
      NonSpaceOfSpaceFree(s[1..]);
    }
  }

  /** Tokens are non-empty and free of whitespace, and together hold every other character in order. */
  lemma {:induction false} SplitFromTokens(s: string, token: string)
    requires SpaceFree(token)
    ensures forall i :: 0 <= i < |SplitFrom(s, token)| ==>
      SplitFrom(s, token)[i] != "" && SpaceFree(SplitFrom(s, token)[i])
    ensures Concat(SplitFrom(s, token)) == token + NonSpace(s)
  {
    assert Concat(Flush(token)) == token by { if token != "" { assert [token][1..] == []; } }
    if s == "" {
      assert token == token + NonSpace(s);
    } else if IsSpace(s[0]) {
      SplitFromTokens(s[1..], "");
      ConcatAppend(Flush(token), SplitFrom(s[1..], ""));
      assert NonSpace(s) == "" + NonSpace(s[1..]) == NonSpace(s[1..]);
    } else {
      SplitFromTokens(s[1..], token + [s[0]]);
      assert token + [s[0]] + NonSpace(s[1..]) == token + ([s[0]] + NonSpace(s[1..]));
    }
  }

  lemma SplitTokens(s: string)
    ensures forall i :: 0 <= i < |Split(s)| ==> Split(s)[i] != "" && SpaceFree(Split(s)[i])
    ensures Concat(Split(s)) == NonSpace(s)
  {
    SplitFromTokens(s, "");
  }

  lemma {:induction false} SplitIgnoresTrailingSpace(s: string, c: char, token: string)
    requires IsSpace(c)
    ensures SplitFrom(s + [c], token) == SplitFrom(s, token)
  {
    if s == "" {
      assert s + [c] == [c];
      assert SplitFrom([c][1..], "") == [];
    } else {
      assert (s + [c])[1..] == s[1..] + [c];
      SplitIgnoresTrailingSpace(s[1..], c, if IsSpace(s[0]) then "" else token + [s[0]]);
    }
  }

  lemma {:induction false} SplitStripLeft(s: string)
    ensures Split(StripLeft(s)) == Split(s)
  {
    if s != "" && IsSpace(s[0]) {
      SplitStripLeft(s[1..]);
    }
  }

  lemma {:induction false} SplitStripRight(s: string)
    ensures Split(StripRight(s)) == Split(s)
  {
    if s != "" && IsSpace(s[|s| - 1]) {
      var head := s[..|s| - 1];
      SplitStripRight(head);
      SplitIgnoresTrailingSpace(head, s[|s| - 1], "");
      assert head + [s[|s| - 1]] == s;
    }
  }

  lemma {:induction false} StripRightShape(s: string)
    ensures StripRight(s) <= s
    ensures StripRight(s) != "" ==> !IsSpace(StripRight(s)[|StripRight(s)| - 1])
  {
    if s != "" && IsSpace(s[|s| - 1]) { StripRightShape(s[..|s| - 1]); }
  }

  predicate Blank(s: string) {
    forall i :: 0 <= i < |s| ==> IsSpace(s[i])
  }

  lemma {:induction false} StripLeftTrims(s: string) returns (left: string)
    ensures Blank(left) && s == left + StripLeft(s)
    ensures StripLeft(s) != "" ==> !IsSpace(StripLeft(s)[0])
  {
    if s != "" && IsSpace(s[0]) {
      var more := StripLeftTrims(s[1..]);
      left := [s[0]] + more;
      assert s == [s[0]] + s[1..];
    } else {
      left := "";
    }
  }

  lemma {:induction false} StripRightTrims(s: string) returns (right: string)
    ensures Blank(right) && s == StripRight(s) + right
  {
    if s != "" && IsSpace(s[|s| - 1]) {
      var more := StripRightTrims(s[..|s| - 1]);
      right := more + [s[|s| - 1]];
      assert s == s[..|s| - 1] + [s[|s| - 1]];
    } else {
      right := "";
    }
  }

  /** Stripping takes away whitespace at both ends, all of it, and nothing else. */
  lemma StripTrims(s: string) returns (left: string, right: string)
    ensures Blank(left) && Blank(right) && s == left + Strip(s) + right
    ensures Strip(s) != "" ==> !IsSpace(Strip(s)[0]) && !IsSpace(Strip(s)[|Strip(s)| - 1])
  {
    left := StripLeftTrims(s);
    right := StripRightTrims(StripLeft(s));
    StripRightShape(StripLeft(s));
  }

  /** Stripping first does not change the tokens, and it empties exactly the strings without tokens. */
  lemma StripKeepsTokens(s: string)
    ensures Split(Strip(s)) == Split(s)
    ensures Strip(s) == "" <==> Split(s) == []
  {
    SplitStripLeft(s);
    SplitStripRight(StripLeft(s));
    var t := Strip(s);
    if t != "" {
      StripRightShape(StripLeft(s));
      SplitFromTokens(t, "");
      assert !IsSpace(t[|t| - 1]);
      assert t == t[..|t| - 1] + [t[|t| - 1]];
      NonSpaceAppend(t[..|t| - 1], [t[|t| - 1]]);
      assert NonSpace([t[|t| - 1]]) != "";
    }
  }

  lemma {:induction false} NonSpaceStripLeft(s: string)
    ensures NonSpace(StripLeft(s)) == NonSpace(s)
  {
    if s != "" && IsSpace(s[0]) { NonSpaceStripLeft(s[1..]); }
  }

  lemma {:induction false} NonSpaceStripRight(s: string)
    ensures NonSpace(StripRight(s)) == NonSpace(s)
  {
    if s != "" && IsSpace(s[|s| - 1]) {
      var head, c := s[..|s| - 1], s[|s| - 1];
      NonSpaceStripRight(head);
      assert s == head + [c];
      NonSpaceAppend(head, [c]);
      assert NonSpace([c]) == "";
    }
  }

  lemma NonSpaceStrip(s: string)
    ensures NonSpace(Strip(s)) == NonSpace(s)
  {
    NonSpaceStripLeft(s);
    NonSpaceStripRight(StripLeft(s));
  }
}
