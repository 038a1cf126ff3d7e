/**
 * The few Python string operations the stream client relies on, over
 * `string` (a sequence of characters): the `in` operator on strings,
 * `str.find`, `str.split` with a one-character separator, `str.strip`
 * with a set of characters and `str.replace('+', ' ')`.
 */
module Text {

  /** `sub` occurs in `s` starting at index `i`. */
  predicate OccursAt(s: string, sub: string, i: nat)
  {
    i + |sub| <= |s| && s[i..i + |sub|] == sub
  }

  /** Python's `sub in s`, stated declaratively. */
  ghost predicate OccursIn(sub: string, s: string)
  {
    exists i: nat :: OccursAt(s, sub, i)
  }

  /** Python's `sub in s`, computed by trying every start position from the left. */
  function Contains(s: string, sub: string): bool
    decreases |s|
  {
    if |s| < |sub| then false
    else if OccursAt(s, sub, 0) then true
    else Contains(s[1..], sub)
  }

  /** Occurrences in `s[1..]` are the occurrences in `s` that do not start at 0, shifted by one. */
  lemma OccursInTail(s: string, sub: string)
    requires |s| > 0
    ensures OccursIn(sub, s[1..]) ==> OccursIn(sub, s)
    ensures OccursIn(sub, s) && !OccursAt(s, sub, 0) ==> OccursIn(sub, s[1..])
  {
    if OccursIn(sub, s[1..]) {
      var i: nat :| OccursAt(s[1..], sub, i);
      assert s[1..][i..i + |sub|] == s[i + 1..i + 1 + |sub|];
      assert OccursAt(s, sub, i + 1);
    }
    if OccursIn(sub, s) && !OccursAt(s, sub, 0) {
      var i: nat :| OccursAt(s, sub, i);
      assert s[1..][i - 1..i - 1 + |sub|] == s[i..i + |sub|];
      assert OccursAt(s[1..], sub, i - 1);
    }
  }

  /** The scan finds `sub` exactly when `sub` occurs somewhere in `s`. */
  lemma {:induction false} ContainsIsOccurrence(s: string, sub: string)
    ensures Contains(s, sub) <==> OccursIn(sub, s)
    decreases |s|
  {
    if |s| < |sub| {
      forall i: nat ensures !OccursAt(s, sub, i) { }
    } else if !OccursAt(s, sub, 0) {
      ContainsIsOccurrence(s[1..], sub);
      OccursInTail(s, sub);
    }
  }

  /** An occurrence inside a part of a string is an occurrence in the whole string. */
  lemma OccursInContext(sub: string, before: string, mid: string, after: string)
    requires OccursIn(sub, mid)
    ensures OccursIn(sub, before + mid + after)
  {
    var i: nat :| OccursAt(mid, sub, i);
    var s := before + mid + after;
    assert s[|before| + i..|before| + i + |sub|] == mid[i..i + |sub|];
    assert OccursAt(s, sub, |before| + i);
  }

  /** Index of the first `c` in `s`, or `|s|` when `s` holds no `c` (Python's `str.find`, with `|s|` for -1). */
  function IndexOf(s: string, c: char): (i: nat)
    ensures i <= |s|
    ensures c !in s[..i]
    ensures i < |s| ==> s[i] == c
    ensures i == |s| <==> c !in s
    decreases |s|
  {
    if |s| == 0 then 0
    else if s[0] == c then 0
    else
      assert s == [s[0]] + s[1..];
      1 + IndexOf(s[1..], c)
  }

  /** The first `c` of `a + [c] + b` is the one after `a` when `a` holds none. */
  lemma IndexOfAfter(a: string, c: char, b: string)
    requires c !in a
    ensures IndexOf(a + [c] + b, c) == |a|
  {
    var s := a + [c] + b;
    assert s[..|a|] == a;
    assert s[|a|] == c;
  }

  /** Python's `s.split(sep)` for a one-character separator: the pieces between separators, in order. */
  function Split(s: string, sep: char): (parts: seq<string>)
    ensures |parts| >= 1
    ensures forall k :: 0 <= k < |parts| ==> sep !in parts[k]
    decreases |s|
  {
    var i := IndexOf(s, sep);
    if i == |s| then [s] else [s[..i]] + Split(s[i + 1..], sep)
  }

  /** Python's `sep.join(parts)`. */
  function Join(parts: seq<string>, sep: char): string
  {
    if parts == [] then ""
    else if |parts| == 1 then parts[0]
    else parts[0] + [sep] + Join(parts[1..], sep)
  }

  /** One step of `Split`: the piece before the first separator, then the pieces of the rest. */
  lemma SplitUnfold(s: string, sep: char)
    requires IndexOf(s, sep) < |s|
    ensures Split(s, sep) == [s[..IndexOf(s, sep)]] + Split(s[IndexOf(s, sep) + 1..], sep)
  {
  }

  /** One step of `Join`: the first piece, the separator, then the rest joined. */
  lemma JoinUnfold(head: string, tail: seq<string>, sep: char)
    requires |tail| >= 1
    ensures Join([head] + tail, sep) == head + [sep] + Join(tail, sep)
  {
    assert ([head] + tail)[1..] == tail;
  }

  /** Joining the pieces of a split gives back the original string. */
  lemma {:induction false} JoinSplit(s: string, sep: char)
    ensures Join(Split(s, sep), sep) == s
    decreases |s|
  {
    var i := IndexOf(s, sep);
    if i < |s| {
      var rest := s[i + 1..];
      SplitUnfold(s, sep);
      JoinSplit(rest, sep);
      JoinUnfold(s[..i], Split(rest, sep), sep);
      CutAt(s, i);
    }
  }

  /** A string is the part before position `i`, the character at `i`, and the part after. */
  lemma CutAt(s: string, i: nat)
    requires i < |s|
    ensures s == s[..i] + [s[i]] + s[i + 1..]
  {
  }

  /** Splitting joined pieces gives back the pieces, when none holds the separator. */
  lemma {:induction false} SplitJoin(parts: seq<string>, sep: char)
    requires |parts| >= 1
    requires forall k :: 0 <= k < |parts| ==> sep !in parts[k]
    ensures Split(Join(parts, sep), sep) == parts
    decreases |parts|
  {
    if |parts| > 1 {
      forall k | 0 <= k < |parts| - 1
        ensures sep !in parts[1..][k]
      {
        assert parts[1..][k] == parts[k + 1];
      }
      SplitJoin(parts[1..], sep);
      SplitCons(parts[0], sep, Join(parts[1..], sep));
    } else {
      assert IndexOf(parts[0], sep) == |parts[0]|;
    }
  }

  /** Splitting `a + [sep] + b` gives `a` followed by the pieces of `b`, when `a` holds no separator. */
  lemma SplitCons(a: string, sep: char, b: string)
    requires sep !in a
    ensures Split(a + [sep] + b, sep) == [a] + Split(b, sep)
  {
    var s := a + [sep] + b;
    IndexOfAfter(a, sep, b);
    assert s[..|a|] == a;
    assert s[|a| + 1..] == b;
  }

  /** The first piece of a split is everything before the first separator. */
  lemma SplitFirst(a: string, sep: char, b: string)
    requires sep !in a
    requires b == [] || b[0] == sep
    ensures Split(a + b, sep)[0] == a
  {
    if b == [] {
      assert a + b == a;
      assert IndexOf(a, sep) == |a|;
    } else {
      assert a + b == a + [sep] + b[1..];
      IndexOfAfter(a, sep, b[1..]);
      assert (a + b)[..|a|] == a;
    }
  }

  /** Python's `s.lstrip(chars)`. */
  function StripLeading(s: string, chars: set<char>): (r: string)
    ensures |r| <= |s| && r == s[|s| - |r|..]
    ensures r == [] || r[0] !in chars
    decreases |s|
  {
    if |s| > 0 && s[0] in chars then StripLeading(s[1..], chars) else s
  }

  /** Python's `s.rstrip(chars)`. */
  function StripTrailing(s: string, chars: set<char>): (r: string)
    ensures |r| <= |s| && r == s[..|r|]
    ensures r == [] || r[|r| - 1] !in chars
    decreases |s|
  {
    if |s| > 0 && s[|s| - 1] in chars then StripTrailing(s[..|s| - 1], chars) else s
  }

  /** Python's `s.strip(chars)`: leading characters in `chars` go first, then trailing ones. */
  function Strip(s: string, chars: set<char>): string
  {
    StripTrailing(StripLeading(s, chars), chars)
  }

  /** `StripLeading` removes exactly the prefix `s[..i]` when it is made of `chars` and `s[i]` is not in `chars`. */
  lemma {:induction false} StripLeadingExactly(s: string, chars: set<char>, i: nat)
    requires i <= |s|
    requires forall k :: 0 <= k < i ==> s[k] in chars
    requires i < |s| ==> s[i] !in chars
    ensures StripLeading(s, chars) == s[i..]
    decreases i
  {
    if i > 0 {
      var tail := s[1..];
      forall k | 0 <= k < i - 1
        ensures tail[k] in chars
      {
        assert tail[k] == s[k + 1];
      }
      StripLeadingExactly(tail, chars, i - 1);
      assert tail[i - 1..] == s[i..];
    }
  }

  /** `StripTrailing` removes exactly the suffix `s[j..]` when it is made of `chars` and `s[j - 1]` is not in `chars`. */
  lemma {:induction false} StripTrailingExactly(s: string, chars: set<char>, j: nat)
    requires j <= |s|
    requires forall k :: j <= k < |s| ==> s[k] in chars
    requires 0 < j ==> s[j - 1] !in chars
    ensures StripTrailing(s, chars) == s[..j]
    decreases |s| - j
  {
    if j < |s| {
      var init := s[..|s| - 1];
      StripTrailingExactly(init, chars, j);
      assert init[..j] == s[..j];
    }
  }

  /** Trailing-stripping the suffix `s[i..]` keeps `s[i..j]` when `s[j..]` is made of `chars` and `s[j - 1]` is not. */
  lemma StripTrailingOfSuffix(s: string, chars: set<char>, i: nat, j: nat)
    requires i < j <= |s|
    requires forall k :: j <= k < |s| ==> s[k] in chars
    requires s[j - 1] !in chars
    ensures StripTrailing(s[i..], chars) == s[i..j]
  {
    var left := s[i..];
    forall k | j - i <= k < |left|
      ensures left[k] in chars
    {
      assert left[k] == s[i + k];
    }
    assert left[j - i - 1] == s[j - 1];
    StripTrailingExactly(left, chars, j - i);
    assert left[..j - i] == s[i..j];
  }

  /** A string made only of `chars` strips to nothing. */
  lemma StripAll(s: string, chars: set<char>)
    requires forall k :: 0 <= k < |s| ==> s[k] in chars
    ensures Strip(s, chars) == []
  {
  }

  /**
   * `Strip` keeps exactly the slice `s[i..j]` that is framed by characters of
   * `chars` and neither starts nor ends with one of them.
   */
  lemma StripExactly(s: string, chars: set<char>, i: nat, j: nat)
    requires i <= j <= |s|
    requires forall k :: 0 <= k < i ==> s[k] in chars
    requires forall k :: j <= k < |s| ==> s[k] in chars
    requires i < j ==> s[i] !in chars && s[j - 1] !in chars
    ensures Strip(s, chars) == s[i..j]
  {
    if i < j {
      StripLeadingExactly(s, chars, i);
      StripTrailingOfSuffix(s, chars, i, j);
    } else {
      StripAll(s, chars);
    }
  }

  /** Stripping twice strips nothing more. */
  lemma StripIdempotent(s: string, chars: set<char>)
    ensures Strip(Strip(s, chars), chars) == Strip(s, chars)
  {
  }

  /** Python's `s.replace('+', ' ')`: every `+` becomes a space, every other character stays. */
  function PlusToSpace(s: string): (r: string)
    ensures |r| == |s|
    ensures forall k :: 0 <= k < |s| ==> r[k] == (if s[k] == '+' then ' ' else s[k])
    decreases |s|
  {
    if s == [] then []
    else [if s[0] == '+' then ' ' else s[0]] + PlusToSpace(s[1..])
  }

  /** Replacing `+` by a space changes nothing in a string without `+`, and never changes the length. */
  lemma PlusToSpaceWithoutPlus(s: string)
    ensures |PlusToSpace(s)| == |s|
    ensures '+' !in s ==> PlusToSpace(s) == s
  {
  }
}
