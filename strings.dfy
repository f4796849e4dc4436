/** The .NET string operations the core relies on, written out on
    `seq<char>`: ordinal `Contains`, `Split` on one character, `Join`,
    `TrimEnd` of one character, and "the first segment before a delimiter"
    (`Split(c).FirstOrDefault("")`). */
module Strings {

  /** `p` occurs in `s` starting at index `i`. */
  ghost predicate OccursAt(s: string, p: string, i: int) {
    0 <= i && i + |p| <= |s| && s[i..i + |p|] == p
  }

  /** `s.Contains(p)`: ordinal, case-sensitive substring test. The empty
      pattern occurs in every string. */
  function Contains(s: string, p: string): (b: bool)
    ensures b <==> exists i :: OccursAt(s, p, i)
  {
    if p <= s then
      assert OccursAt(s, p, 0);
      true
    else if s == [] then
      assert forall i :: !OccursAt(s, p, i);
      false
    else
      var b := Contains(s[1..], p);
      OccursShift(s, p);
      assert !OccursAt(s, p, 0);
      assert forall i :: OccursAt(s, p, i) ==> i == 0 || OccursAt(s[1..], p, i - 1);
      b
  }

  /** An occurrence in the tail is an occurrence one position later. */
  lemma OccursShift(s: string, p: string)
    requires s != []
    ensures forall i :: 0 <= i ==> (OccursAt(s[1..], p, i) <==> OccursAt(s, p, i + 1))
  {
    forall i | 0 <= i ensures OccursAt(s[1..], p, i) <==> OccursAt(s, p, i + 1) {
      if 0 <= i && i + 1 + |p| <= |s| {
        assert s[1..][i..i + |p|] == s[i + 1..i + 1 + |p|];
      }
    }
  }

  /** `s.Split(c).FirstOrDefault("")`: the text before the first `c`, or all
      of `s` when it holds no `c`. */
  function BeforeFirst(s: string, c: char): (r: string)
    ensures r <= s
    ensures c !in r
    ensures r == s || s[|r|] == c
  {
    if s == [] || s[0] == c then [] else [s[0]] + BeforeFirst(s[1..], c)
  }

  /** A string without `c` is its own first segment. */
  lemma {:induction false} BeforeFirstNoDelimiter(s: string, c: char)
    requires c !in s
    ensures BeforeFirst(s, c) == s
  {
    if s != [] {
      BeforeFirstNoDelimiter(s[1..], c);
    }
  }

  /** How many times `c` occurs in `s`. */
  function Count(s: string, c: char): nat {
    if s == [] then 0 else (if s[0] == c then 1 else 0) + Count(s[1..], c)
  }

  /** `s.Split(c)`: the segments between occurrences of `c`, kept verbatim
      (no trimming, empty segments included). */
  function Split(s: string, c: char): (r: seq<string>)
    ensures |r| >= 1
    ensures forall i :: 0 <= i < |r| ==> c !in r[i]
  {
    if s == [] then [""]
    else
      var t := Split(s[1..], c);
      if s[0] == c then [""] + t else [[s[0]] + t[0]] + t[1..]
  }

  /** `string.Join(sep, xs)`. */
  function Join(sep: string, xs: seq<string>): string {
    if xs == [] then ""
    else if |xs| == 1 then xs[0]
    else xs[0] + sep + Join(sep, xs[1..])
  }

  /** Splitting yields one more segment than there are delimiters. */
  lemma {:induction false} SplitLength(s: string, c: char)
    ensures |Split(s, c)| == Count(s, c) + 1
  {
    if s != [] {
      SplitLength(s[1..], c);
    }
  }

  /** Joining the segments with the delimiter gives back the input. */
  lemma {:induction false} JoinSplit(s: string, c: char)
    ensures Join([c], Split(s, c)) == s
  {
    if s != [] {
      var t := Split(s[1..], c);
      JoinSplit(s[1..], c);
      if s[0] != c {
        if |t| == 1 {
        } else {
          assert ([[s[0]] + t[0]] + t[1..])[1..] == t[1..];
          assert Join([c], t) == t[0] + [c] + Join([c], t[1..]);
        }
      } else {
        assert ([""] + t)[1..] == t;
      }
    }
  }

  /** Splitting a join of delimiter-free parts gives back the parts. */
  lemma {:induction false} SplitJoin(xs: seq<string>, c: char)
    requires |xs| >= 1
    requires forall i :: 0 <= i < |xs| ==> c !in xs[i]
    ensures Split(Join([c], xs), c) == xs
  {
    if |xs| == 1 {
      SplitOfPlain(xs[0], c);
    } else {
      SplitJoin(xs[1..], c);
      SplitPrefix(xs[0], [c] + Join([c], xs[1..]), c);
      assert xs[0] + [c] + Join([c], xs[1..]) == xs[0] + ([c] + Join([c], xs[1..]));
      assert ([c] + Join([c], xs[1..]))[1..] == Join([c], xs[1..]);
      assert [xs[0]] + xs[1..] == xs;
    }
  }

  /** A delimiter-free string is a single segment. */
  lemma {:induction false} SplitOfPlain(s: string, c: char)
    requires c !in s
    ensures Split(s, c) == [s]
  {
    if s != [] {
      assert s[0] != c && c !in s[1..];
      SplitOfPlain(s[1..], c);
      assert [s[0]] + s[1..] == s;
    }
  }

  /** A delimiter-free prefix glues onto the first segment of what follows
      when that starts with the delimiter. */
  lemma {:induction false} SplitPrefix(x: string, rest: string, c: char)
    requires c !in x
    requires rest != [] && rest[0] == c
    ensures Split(x + rest, c) == [x] + Split(rest[1..], c)
  {
    if x == [] {
      assert x + rest == rest;
    } else {
      assert (x + rest)[0] == x[0] != c;
      assert (x + rest)[1..] == x[1..] + rest;
      SplitPrefix(x[1..], rest, c);
      assert [x[0]] + x[1..] == x;
    }
  }

  /** Appending one more part puts one separator before it. */
  lemma {:induction false} JoinAppend(sep: string, xs: seq<string>, x: string)
    requires xs != []
    ensures Join(sep, xs + [x]) == Join(sep, xs) + sep + x
  {
    if |xs| == 1 {
      assert (xs + [x])[1..] == [x];
    } else {
      assert (xs + [x])[1..] == xs[1..] + [x];
      JoinAppend(sep, xs[1..], x);
    }
  }

  /** `s.TrimEnd(c)`: removes EVERY trailing `c`. */
  function TrimEnd(s: string, c: char): (r: string)
    ensures r <= s
    ensures r == [] || r[|r| - 1] != c
    ensures forall i :: |r| <= i < |s| ==> s[i] == c
  {
    if s != [] && s[|s| - 1] == c then TrimEnd(s[..|s| - 1], c) else s
  }

  /** A string that does not end in `c` is left alone, so `TrimEnd` of such
      a string with one `c` appended takes off exactly that one `c`. */
  lemma TrimEndOne(s: string, c: char)
    requires s != [] && s[|s| - 1] != c
    ensures TrimEnd(s, c) == s
    ensures TrimEnd(s + [c], c) == s
  {
    assert (s + [c])[..|s|] == s;
  }
}
