/** JavaScript's `String.prototype.split` with a one-character separator. */
module Strings {

  /** The pieces of `s` between the occurrences of `sep`, in order, as `s.split(sep)` returns them. */
  function SplitOn(s: string, sep: char): (parts: seq<string>)
    ensures |parts| >= 1
    ensures |parts| == 1 <==> sep !in s
    ensures forall i :: 0 <= i < |parts| ==> sep !in parts[i]
    ensures JoinWith(parts, sep) == s
  {
    if s == [] then [""]
    else
      var rest := SplitOn(s[1..], sep);
      if s[0] == sep then
        assert ([""] + rest)[1..] == rest;
        [""] + rest
      else
        var parts := [[s[0]] + rest[0]] + rest[1..];
        assert |rest| > 1 ==> parts[1..] == rest[1..];
        parts
  }

  /** `parts.join(sep)`: the inverse of SplitOn. */
  function JoinWith(parts: seq<string>, sep: char): string
    requires |parts| >= 1
  {
    if |parts| == 1 then parts[0] else parts[0] + [sep] + JoinWith(parts[1..], sep)
  }

  /** A prefix free of the separator becomes the first piece, and the rest is split on its own. */
  lemma {:induction false} SplitAfterFirst(prefix: string, sep: char, t: string)
    requires sep !in prefix
    ensures SplitOn(prefix + [sep] + t, sep) == [prefix] + SplitOn(t, sep)
  {
    if prefix == [] {
      assert prefix + [sep] + t == [sep] + t;
      assert ([sep] + t)[1..] == t;
    } else {
      var tail := prefix[1..] + [sep] + t;
      assert prefix + [sep] + t == [prefix[0]] + tail;
      assert prefix[0] in prefix;
      SplitAfterFirst(prefix[1..], sep, t);
      SplitCons(prefix[0], tail, sep);
      assert [prefix[0]] + prefix[1..] == prefix;
    }
  }

  /** A character other than the separator joins the first piece of what follows it. */
  lemma SplitCons(c: char, t: string, sep: char)
    requires c != sep
    ensures SplitOn([c] + t, sep) == [[c] + SplitOn(t, sep)[0]] + SplitOn(t, sep)[1..]
  {
    assert ([c] + t)[0] == c && ([c] + t)[1..] == t;
  }

  /** The first piece of `piece + rest` is `piece` when `rest` is empty or starts with the separator. */
  lemma {:induction false} SplitFirstPiece(piece: string, sep: char, rest: string)
    requires sep !in piece
    requires rest == [] || rest[0] == sep
    ensures SplitOn(piece + rest, sep)[0] == piece
  {
    if piece == [] {
      assert piece + rest == rest;
    } else {
      var s := piece + rest;
      assert s[0] == piece[0] && s[1..] == piece[1..] + rest;
      SplitFirstPiece(piece[1..], sep, rest);
      assert [piece[0]] + piece[1..] == piece;
    }
  }
}
