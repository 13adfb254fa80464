/** String helpers with Go's semantics: `strings.Split`/`bytes.Split` on one
    separator character, `strings.Join`, `HasSuffix`, `TrimSuffix` and
    `bytes.Contains`. Strings are sequences of characters; no encoding is
    modelled. */
module Text {

  /** The pieces of `s` between occurrences of `sep`: always one more piece
      than there are separators, so the empty string splits into `[""]`. */
  function Split(s: string, sep: char): (parts: seq<string>)
    ensures |parts| >= 1
    ensures forall i :: 0 <= i < |parts| ==> sep !in parts[i]
    decreases |s|
  {
    if |s| == 0 then [""]
    else
      var rest := Split(s[1..], sep);
      if s[0] == sep then [""] + rest
      else [[s[0]] + rest[0]] + rest[1..]
  }

  /** The pieces joined with `sep` between consecutive pieces. */
  function Join(parts: seq<string>, sep: char): string
    decreases |parts|
  {
    if |parts| == 0 then ""
    else if |parts| == 1 then parts[0]
    else parts[0] + [sep] + Join(parts[1..], sep)
  }

  predicate HasPrefix(s: string, prefix: string)
  {
    |prefix| <= |s| && s[..|prefix|] == prefix
  }

  predicate HasSuffix(s: string, suffix: string)
  {
    |suffix| <= |s| && s[|s| - |suffix|..] == suffix
  }

  /** A suffix of all but the last character, extended by that character,
      is a suffix of the whole. */
  lemma SuffixSnoc(s: string, e: string)
    requires |s| > 0 && HasSuffix(s[..|s| - 1], e)
    ensures HasSuffix(s, e + [s[|s| - 1]])
  {
    assert s[|s| - |e| - 1..] == s[..|s| - 1][|s| - 1 - |e|..] + [s[|s| - 1]];
  }

  lemma SuffixOfSuffix(s: string, t: string, u: string)
    requires HasSuffix(s, t) && HasSuffix(t, u)
    ensures HasSuffix(s, u)
  {
    assert s[|s| - |u|..] == s[|s| - |t|..][|t| - |u|..];
  }

  /** `s` without one trailing `suffix`, or `s` itself when it does not end in it. */
  function TrimSuffix(s: string, suffix: string): (r: string)
    ensures HasSuffix(s, suffix) ==> r + suffix == s
    ensures !HasSuffix(s, suffix) ==> r == s
  {
    if HasSuffix(s, suffix) then s[..|s| - |suffix|] else s
  }

  /** `sub` occurs somewhere in `s`. */
  predicate Contains(s: string, sub: string)
    decreases |s|
  {
    HasPrefix(s, sub) || (|s| > 0 && Contains(s[1..], sub))
  }

  lemma {:induction false} ContainsEmptyString(sub: string)
    ensures Contains("", sub) <==> sub == ""
  {
  }

  /** Every string that starts with `sub` contains it. */
  lemma PrefixContained(s: string, sub: string)
    requires HasPrefix(s, sub)
    ensures Contains(s, sub)
  {
  }

  /** A separator-free string is a single piece. */
  lemma {:induction false} SplitNoSeparator(s: string, sep: char)
    requires sep !in s
    ensures Split(s, sep) == [s]
    decreases |s|
  {
    if |s| > 0 {
      SplitNoSeparator(s[1..], sep);
      assert s[0] != sep;
      assert s == [s[0]] + s[1..];
    }
  }

  /** The pieces of `s + t` given those of `s` and of `t`: the last piece
      of `s` and the first piece of `t` fuse into one. */
  function Fuse(S: seq<string>, T: seq<string>): seq<string>
    requires |S| >= 1 && |T| >= 1
  {
    S[..|S| - 1] + [S[|S| - 1] + T[0]] + T[1..]
  }

  lemma FuseSeparatorFirst(S: seq<string>, T: seq<string>)
    requires |S| >= 1 && |T| >= 1
    ensures Fuse([""] + S, T) == [""] + Fuse(S, T)
  {
    assert ([""] + S)[..|S|] == [""] + S[..|S| - 1];
  }

  lemma FuseCharFirst(c: char, S: seq<string>, T: seq<string>)
    requires |S| >= 1 && |T| >= 1
    ensures var F := Fuse(S, T);
            Fuse([[c] + S[0]] + S[1..], T) == [[c] + F[0]] + F[1..]
  {
    var F := Fuse(S, T);
    var S2 := [[c] + S[0]] + S[1..];
    if |S| == 1 {
      assert S2 == [[c] + S[0]];
      assert F[0] == S[0] + T[0];
      assert F[1..] == T[1..];
      assert ([c] + S[0]) + T[0] == [c] + (S[0] + T[0]);
      assert Fuse(S2, T) == [] + [([c] + S[0]) + T[0]] + T[1..];
    } else {
      assert F[0] == S[0];
      assert F[1..] == S[1..|S| - 1] + [S[|S| - 1] + T[0]] + T[1..];
      assert S2[..|S2| - 1] == [[c] + S[0]] + S[1..|S| - 1];
    }
  }

  /** Fusing with pieces that start with an empty one appends the rest. */
  lemma FuseEmptyHead(S: seq<string>, b: string)
    requires |S| >= 1
    ensures Fuse(S, ["", b]) == S + [b]
  {
    var n := |S| - 1;
    assert S[n] + "" == S[n];
    assert S[..n] + [S[n]] == S;
  }

  /** How splitting distributes over concatenation. */
  lemma {:induction false} SplitAppend(s: string, t: string, sep: char)
    ensures Split(s + t, sep) == Fuse(Split(s, sep), Split(t, sep))
    decreases |s|
  {
    if |s| == 0 {
      var T := Split(t, sep);
      assert s + t == t;
      assert "" + T[0] == T[0];
      assert [T[0]] + T[1..] == T;
    } else {
      assert (s + t)[1..] == s[1..] + t;
      assert (s + t)[0] == s[0];
      SplitAppend(s[1..], t, sep);
      if s[0] == sep {
        FuseSeparatorFirst(Split(s[1..], sep), Split(t, sep));
      } else {
        FuseCharFirst(s[0], Split(s[1..], sep), Split(t, sep));
      }
    }
  }

  /** Splitting after a separator-free head and one separator. */
  lemma SplitAfterHead(head: string, tail: string, sep: char)
    requires sep !in head
    ensures Split(head + [sep] + tail, sep) == [head] + Split(tail, sep)
  {
    SplitNoSeparator(head, sep);
    SplitAppend(head, [sep] + tail, sep);
    assert head + [sep] + tail == head + ([sep] + tail);
    assert ([sep] + tail)[1..] == tail;
    assert Split([sep] + tail, sep) == [""] + Split(tail, sep);
    assert head + "" == head;
  }

  /** Joining the pieces of a split gives back the string. */
  lemma {:induction false} JoinSplit(s: string, sep: char)
    ensures Join(Split(s, sep), sep) == s
    decreases |s|
  {
    if |s| > 0 {
      JoinSplit(s[1..], sep);
      var rest := Split(s[1..], sep);
      if s[0] == sep {
        assert Split(s, sep) == [""] + rest;
        assert ([""] + rest)[1..] == rest;
        assert s == [sep] + s[1..];
      } else {
        var parts := [[s[0]] + rest[0]] + rest[1..];
        assert Split(s, sep) == parts;
        if |rest| == 1 {
          assert s == [s[0]] + s[1..];
        } else {
          assert parts[1..] == rest[1..];
          assert Join(rest, sep) == rest[0] + [sep] + Join(rest[1..], sep);
          assert s == [s[0]] + s[1..];
        }
      }
    }
  }

  /** Splitting a join of separator-free pieces gives back the pieces. */
  lemma {:induction false} SplitJoin(parts: seq<string>, sep: char)
    requires |parts| >= 1
    requires forall i :: 0 <= i < |parts| ==> sep !in parts[i]
    ensures Split(Join(parts, sep), sep) == parts
    decreases |parts|
  {
    if |parts| == 1 {
      SplitNoSeparator(parts[0], sep);
    } else {
      SplitJoin(parts[1..], sep);
      SplitAfterHead(parts[0], Join(parts[1..], sep), sep);
      assert [parts[0]] + parts[1..] == parts;
    }
  }

  /** Joining with one more piece at the end. */
  lemma {:induction false} JoinSnoc(parts: seq<string>, last: string, sep: char)
    ensures Join(parts + [last], sep) ==
            if |parts| == 0 then last else Join(parts, sep) + [sep] + last
    decreases |parts|
  {
    if |parts| == 1 {
      assert parts + [last] == [parts[0], last];
    } else if |parts| > 1 {
      JoinSnoc(parts[1..], last, sep);
      assert (parts + [last])[1..] == parts[1..] + [last];
    }
  }

  /** Joining with an empty last piece, then appending `last`, is joining
      with `last` as the last piece. */
  lemma {:induction false} JoinEmptyLast(front: seq<string>, last: string, sep: char)
    ensures Join(front + [""], sep) + last == Join(front + [last], sep)
    decreases |front|
  {
    if |front| == 0 {
      assert front + [""] == [""] && front + [last] == [last];
      assert "" + last == last;
    } else {
      var rest := front[1..];
      assert (front + [""])[1..] == rest + [""];
      assert (front + [last])[1..] == rest + [last];
      JoinEmptyLast(rest, last, sep);
      var head := front[0] + [sep];
      assert Join(front + [""], sep) == head + Join(rest + [""], sep);
      assert Join(front + [last], sep) == head + Join(rest + [last], sep);
      assert head + Join(rest + [""], sep) + last == head + (Join(rest + [""], sep) + last);
    }
  }

  /** A join of non-empty pieces is empty only when there are no pieces. */
  lemma {:induction false} JoinNonEmpty(parts: seq<string>, sep: char)
    requires |parts| >= 1
    requires forall i :: 0 <= i < |parts| ==> parts[i] != ""
    ensures Join(parts, sep) != ""
  {
    if |parts| > 1 {
      assert |Join(parts, sep)| >= |parts[0]|;
    }
  }
}
