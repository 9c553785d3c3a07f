/**
  The few Python `str` operations the two scripts are built from:
  `str.isspace`, `str.strip()`, `str.split(sep)`, `str.split()` and
  `sep.join(xs)`, on strings as sequences of Unicode characters.
 */
module PyText {

  /** Python's `str.isspace` for a single character. */
  predicate IsSpace(c: char)
  {
    ('\t' <= c <= '\r') || ('\U{1C}' <= c <= ' ') || c == '\U{85}' || c == '\U{A0}'
    || c == '\U{1680}' || ('\U{2000}' <= c <= '\U{200A}') || c == '\U{2028}' || c == '\U{2029}'
    || c == '\U{202F}' || c == '\U{205F}' || c == '\U{3000}'
  }

  predicate AllSpace(s: string)
  {
    forall k :: 0 <= k < |s| ==> IsSpace(s[k])
  }

  predicate NoSpace(s: string)
  {
    forall k :: 0 <= k < |s| ==> !IsSpace(s[k])
  }

  /** Neither end of `s` is whitespace: what `strip()` returns. */
  predicate IsStripped(s: string)
  {
    s == [] || (!IsSpace(s[0]) && !IsSpace(s[|s| - 1]))
  }

  /** `s.strip()`: `s` with the whitespace at both ends cut off. */
  function Strip(s: string): (r: string)
    ensures IsStripped(r)
    decreases |s|
  {
    if s != [] && IsSpace(s[0]) then Strip(s[1..])
    else if s != [] && IsSpace(s[|s| - 1]) then Strip(s[..|s| - 1])
    else s
  }

  /**
    `strip()` returns a middle slice `s[a..a + |r|]` of its input, and
    everything cut off on either side is whitespace.
   */
  lemma {:induction false} StripSpan(s: string) returns (a: nat)
    ensures var r := Strip(s);
            && a + |r| <= |s| && r == s[a..a + |r|]
            && (forall k :: 0 <= k < a ==> IsSpace(s[k]))
            && (forall k :: a + |r| <= k < |s| ==> IsSpace(s[k]))
    decreases |s|
  {
    var r := Strip(s);
    if s != [] && IsSpace(s[0]) {
      var b := StripSpan(s[1..]);
      a := b + 1;
      assert s[1..][b..b + |r|] == s[a..a + |r|];
      forall k | 1 <= k < |s| ensures s[k] == s[1..][k - 1] {
      }
    } else if s != [] && IsSpace(s[|s| - 1]) {
      var t := s[..|s| - 1];
      a := StripSpan(t);
      assert t[a..a + |r|] == s[a..a + |r|];
      forall k | 0 <= k < |t| ensures s[k] == t[k] {
      }
    } else {
      a := 0;
      assert s[0..|s|] == s;
    }
  }

  /** A leading whitespace character does not change what `strip()` returns. */
  lemma StripSkipsSpace(c: char, s: string)
    requires IsSpace(c)
    ensures Strip([c] + s) == Strip(s)
  {
    assert ([c] + s)[1..] == s;
  }

  /** `strip()` gives the empty string exactly when its input is all whitespace. */
  lemma StripBlank(s: string)
    ensures Strip(s) == [] <==> AllSpace(s)
  {
    var a := StripSpan(s);
    if Strip(s) != [] {
      assert s[a] == Strip(s)[0];
    }
  }

  /** `strip()` keeps only characters of its input. */
  lemma StripKeepsChars(s: string, c: char)
    requires c !in s
    ensures c !in Strip(s)
  {
    var a := StripSpan(s);
  }

  /**
    `s.split(sep)` for a non-empty separator: the pieces between the
    non-overlapping occurrences of `sep`, found from the left. An empty
    string splits into `[""]`.
   */
  function Split(s: string, sep: string): (r: seq<string>)
    requires sep != []
    ensures |r| >= 1
    decreases |s|
  {
    if |sep| <= |s| && s[..|sep|] == sep then [""] + Split(s[|sep|..], sep)
    else if s == [] then [""]
    else
      var t := Split(s[1..], sep);
      [[s[0]] + t[0]] + t[1..]
  }

  /** `sep.join(xs)`. */
  function Join(xs: seq<string>, sep: string): string
  {
    if |xs| == 0 then "" else if |xs| == 1 then xs[0] else xs[0] + sep + Join(xs[1..], sep)
  }

  /** Joining a list whose first entry is extended by one character. */
  lemma JoinGrowFirst(c: char, t: seq<string>, sep: string)
    requires |t| >= 1
    ensures Join([[c] + t[0]] + t[1..], sep) == [c] + Join(t, sep)
  {
    var r := [[c] + t[0]] + t[1..];
    if |t| > 1 {
      assert r[1..] == t[1..];
    }
  }

  /** Joining a list that starts with an empty entry. */
  lemma JoinEmptyFirst(t: seq<string>, sep: string)
    requires |t| >= 1
    ensures Join([""] + t, sep) == sep + Join(t, sep)
  {
    assert ([""] + t)[1..] == t;
  }

  /** Joining the pieces of a split with the same separator gives back the string. */
  lemma {:induction false} JoinSplit(s: string, sep: string)
    requires sep != []
    ensures Join(Split(s, sep), sep) == s
    decreases |s|
  {
    if |sep| <= |s| && s[..|sep|] == sep {
      var rest := s[|sep|..];
      assert Split(s, sep) == [""] + Split(rest, sep);
      JoinSplit(rest, sep);
      JoinEmptyFirst(Split(rest, sep), sep);
      assert s == sep + rest;
    } else if s == [] {
    } else {
      var t := Split(s[1..], sep);
      assert Split(s, sep) == [[s[0]] + t[0]] + t[1..];
      JoinSplit(s[1..], sep);
      JoinGrowFirst(s[0], t, sep);
      assert s == [s[0]] + s[1..];
    }
  }

  /** A prefix that holds no character of the separator stays glued to the first piece. */
  lemma {:induction false} SplitAfterPlain(x: string, rest: string, sep: string)
    requires sep != [] && sep[0] !in x
    ensures var t := Split(rest, sep);
            Split(x + rest, sep) == [x + t[0]] + t[1..]
    decreases |x|
  {
    var t := Split(rest, sep);
    if x != [] {
      var s := x + rest;
      assert x[0] in x;
      assert s[0] == x[0] && x[0] != sep[0];
      assert !(|sep| <= |s| && s[..|sep|] == sep) by {
        if |sep| <= |s| { assert s[..|sep|][0] == x[0]; }
      }
      assert s[1..] == x[1..] + rest;
      assert Split(s, sep) == [[s[0]] + Split(s[1..], sep)[0]] + Split(s[1..], sep)[1..];
      SplitAfterPlain(x[1..], rest, sep);
      assert [s[0]] + (x[1..] + t[0]) == x + t[0];
    } else {
      assert x + rest == rest && x + t[0] == t[0];
      assert [t[0]] + t[1..] == t;
    }
  }

  /** A string that starts with the separator splits into `""` and the pieces of the rest. */
  lemma SplitSepFirst(rest: string, sep: string)
    requires sep != []
    ensures Split(sep + rest, sep) == [""] + Split(rest, sep)
  {
    assert (sep + rest)[..|sep|] == sep;
    assert (sep + rest)[|sep|..] == rest;
  }

  /** A join of two or more entries is the first entry, the separator, and the join of the rest. */
  lemma JoinCons(xs: seq<string>, sep: string)
    requires |xs| >= 2
    ensures Join(xs, sep) == xs[0] + (sep + Join(xs[1..], sep))
  {
  }

  /** Splitting a join gives the list back when no entry holds the separator's first character. */
  lemma {:induction false} SplitJoin(xs: seq<string>, sep: string)
    requires sep != [] && |xs| >= 1
    requires forall i :: 0 <= i < |xs| ==> sep[0] !in xs[i]
    ensures Split(Join(xs, sep), sep) == xs
    decreases |xs|
  {
    if |xs| == 1 {
      SplitAfterPlain(xs[0], "", sep);
      assert Split("", sep) == [""];
      assert xs[0] + "" == xs[0];
      assert [xs[0]] == xs;
    } else {
      var rest := Join(xs[1..], sep);
      SplitJoin(xs[1..], sep);
      SplitSepFirst(rest, sep);
      var t := [""] + xs[1..];
      assert Split(sep + rest, sep) == t;
      SplitAfterPlain(xs[0], sep + rest, sep);
      JoinCons(xs, sep);
      assert t[0] == "" && t[1..] == xs[1..];
      assert xs[0] + t[0] == xs[0];
      assert [xs[0]] + xs[1..] == xs;
    }
  }

  /** With a one-character separator, no piece contains that character. */
  lemma {:induction false} SplitPiecesPlain(s: string, c: char)
    ensures forall i :: 0 <= i < |Split(s, [c])| ==> c !in Split(s, [c])[i]
    decreases |s|
  {
    if 1 <= |s| && s[..1] == [c] {
      SplitPiecesPlain(s[1..], c);
    } else if s == [] {
    } else {
      SplitPiecesPlain(s[1..], c);
      assert s[0] != c;
    }
  }

  /** With a one-character separator, there is one more piece than there are separators. */
  lemma {:induction false} SplitCount(s: string, c: char)
    ensures |Split(s, [c])| == multiset(s)[c] + 1
    decreases |s|
  {
    if s != [] {
      assert s == [s[0]] + s[1..];
      SplitCount(s[1..], c);
    }
  }

  /** Splitting on one character distributes over a separator occurrence. */
  lemma {:induction false} SplitAtSep(a: string, b: string, c: char)
    ensures Split(a + [c] + b, [c]) == Split(a, [c]) + Split(b, [c])
    decreases |a|
  {
    var s := a + [c] + b;
    if 1 <= |a| && a[..1] == [c] {
      assert s[..1] == [c] && s[1..] == a[1..] + [c] + b;
      SplitAtSep(a[1..], b, c);
    } else if a == [] {
      assert s[..1] == [c] && s[1..] == b;
    } else {
      assert s[..1] != [c] by { assert s[0] == a[0]; }
      assert s[1..] == a[1..] + [c] + b;
      SplitAtSep(a[1..], b, c);
    }
  }

  /** First position at or after `p` that is not whitespace (or `|s|`). */
  function SkipSpace(s: string, p: nat): (q: nat)
    requires p <= |s|
    ensures p <= q <= |s|
    ensures forall k :: p <= k < q ==> IsSpace(s[k])
    ensures q < |s| ==> !IsSpace(s[q])
    decreases |s| - p
  {
    if p < |s| && IsSpace(s[p]) then SkipSpace(s, p + 1) else p
  }

  /** First position at or after `p` that is whitespace (or `|s|`). */
  function SkipToken(s: string, p: nat): (q: nat)
    requires p <= |s|
    ensures p <= q <= |s|
    ensures forall k :: p <= k < q ==> !IsSpace(s[k])
    ensures q < |s| ==> IsSpace(s[q])
    decreases |s| - p
  {
    if p < |s| && !IsSpace(s[p]) then SkipToken(s, p + 1) else p
  }

  /** The words of `s[p..]`, as `s[p..].split()` gives them. */
  function WordsFrom(s: string, p: nat): (ws: seq<string>)
    requires p <= |s|
    ensures forall i :: 0 <= i < |ws| ==> ws[i] != [] && NoSpace(ws[i])
    decreases |s| - p
  {
    var a := SkipSpace(s, p);
    if a == |s| then [] else
      var b := SkipToken(s, a);
      [s[a..b]] + WordsFrom(s, b)
  }

  /** `s.split()`: the maximal runs of non-whitespace characters, left to right. */
  function Words(s: string): (ws: seq<string>)
    ensures forall i :: 0 <= i < |ws| ==> ws[i] != [] && NoSpace(ws[i])
  {
    WordsFrom(s, 0)
  }

  /** `s.split()` is empty exactly when `s` is all whitespace. */
  lemma WordsNone(s: string)
    ensures Words(s) == [] <==> AllSpace(s)
  {
    var a := SkipSpace(s, 0);
    if a < |s| {
      assert !IsSpace(s[a]);
    }
  }

  /**
    The last word of `s[p..].split()` is a whitespace-free span of `s` that
    follows whitespace or begins at `p`, and only whitespace follows it.
   */
  lemma {:induction false} LastWordFrom(s: string, p: nat) returns (i: nat, j: nat)
    requires p <= |s| && WordsFrom(s, p) != []
    ensures p <= i < j <= |s| && WordsFrom(s, p)[|WordsFrom(s, p)| - 1] == s[i..j]
    ensures i == p || IsSpace(s[i - 1])
    ensures forall k :: j <= k < |s| ==> IsSpace(s[k])
    decreases |s| - p
  {
    var a := SkipSpace(s, p);
    var b := SkipToken(s, a);
    var ws := WordsFrom(s, p);
    var rest := WordsFrom(s, b);
    assert ws == [s[a..b]] + rest;
    if rest == [] {
      i, j := a, b;
      var c := SkipSpace(s, b);
      assert c == |s|;
    } else {
      i, j := LastWordFrom(s, b);
      assert ws[|ws| - 1] == rest[|rest| - 1];
      assert b < |s| && IsSpace(s[b]);
      assert i != b by { assert s[i..j][0] == s[i]; }
    }
  }

  /**
    The last word of `s.split()` is a whitespace-free span of `s` that
    starts the string or follows whitespace, and only whitespace follows it.
   */
  lemma LastWordSpan(s: string) returns (i: nat, j: nat)
    requires Words(s) != []
    ensures i < j <= |s| && Words(s)[|Words(s)| - 1] == s[i..j]
    ensures i == 0 || IsSpace(s[i - 1])
    ensures AllSpace(s[j..])
  {
    i, j := LastWordFrom(s, 0);
    assert forall k :: 0 <= k < |s| - j ==> s[j..][k] == s[j + k];
  }
}
