/** Character classes and string helpers shared by the text passes.

    Python's `\s`, `\w`, `str.isspace`, `str.split` and `str.lower` are Unicode-aware;
    this module restricts them to ASCII: a character at or above 128 is neither a
    word character nor whitespace, and lower-casing only maps `A`..`Z`.
 */
module Text {

  /** `\s` and `str.isspace` over ASCII: space, TAB, LF, VT, FF, CR and the
      four separators 0x1C..0x1F. */
  predicate IsSpace(c: char) {
    c == ' ' || 9 <= c as int <= 13 || 28 <= c as int <= 31
  }

  /** `\w` over ASCII. */
  predicate IsWordChar(c: char) {
    'a' <= c <= 'z' || 'A' <= c <= 'Z' || '0' <= c <= '9' || c == '_'
  }

  function LowerChar(c: char): (r: char)
    ensures 'A' <= c <= 'Z' ==> 'a' <= r <= 'z' && r as int == c as int + 32
    ensures !('A' <= c <= 'Z') ==> r == c
  {
    if 'A' <= c <= 'Z' then (c as int + 32) as char else c
  }

  /** `str.lower`. */
  function Lower(s: string): (r: string)
    ensures |r| == |s|
    ensures forall i :: 0 <= i < |s| ==> r[i] == LowerChar(s[i])
  {
    seq(|s|, i requires 0 <= i < |s| => LowerChar(s[i]))
  }

  lemma LowerConcat(x: string, y: string)
    ensures Lower(x + y) == Lower(x) + Lower(y)
  {
  }

  predicate StartsWith(s: string, prefix: string) {
    |prefix| <= |s| && s[..|prefix|] == prefix
  }

  /** `t in s` on Python strings, by scanning the start positions of `s`. */
  predicate Contains(s: string, t: string)
    decreases |s|
  {
    StartsWith(s, t) || (|s| > 0 && Contains(s[1..], t))
  }

  /** `t` occurs in `s` starting at position `i`. */
  predicate OccursAt(s: string, t: string, i: int) {
    0 <= i && i + |t| <= |s| && s[i..i + |t|] == t
  }

  /** The first position at which the scan finds `t` in `s`. */
  function FirstOccurrence(s: string, t: string): (i: nat)
    requires Contains(s, t)
    ensures OccursAt(s, t, i)
    decreases |s|
  {
    if StartsWith(s, t) then 0
    else
      var i := FirstOccurrence(s[1..], t);
      SliceOfTail(s, i, |t|);
      i + 1
  }

  /** An occurrence at any position is found by the scan. */
  lemma {:induction false} OccursContains(s: string, t: string, i: int)
    requires OccursAt(s, t, i)
    ensures Contains(s, t)
    decreases i
  {
    if i > 0 {
      assert s[1..][i - 1..i - 1 + |t|] == s[i..i + |t|];
      OccursContains(s[1..], t, i - 1);
    }
  }

  /** The scan agrees with the positional definition of a substring. */
  lemma ContainsIff(s: string, t: string)
    ensures Contains(s, t) <==> exists i :: OccursAt(s, t, i)
  {
    if Contains(s, t) {
      assert OccursAt(s, t, FirstOccurrence(s, t));
    }
    if exists i :: OccursAt(s, t, i) {
      var i :| OccursAt(s, t, i);
      OccursContains(s, t, i);
    }
  }

  lemma SliceOfLeft(x: string, z: string, i: nat, n: nat)
    requires i + n <= |x|
    ensures (x + z)[i..i + n] == x[i..i + n]
  {
  }

  lemma SliceOfRight(x: string, z: string, i: nat, n: nat)
    requires i + n <= |z|
    ensures (x + z)[|x| + i..|x| + i + n] == z[i..i + n]
  {
  }

  /** Whatever `s` contains, `x + s + y` contains too. */
  lemma ContainsInContext(x: string, s: string, y: string, t: string)
    requires Contains(s, t)
    ensures Contains(x + s + y, t)
  {
    var i := FirstOccurrence(s, t);
    SliceOfRight(x, s, i, |t|);
    SliceOfLeft(x + s, y, |x| + i, |t|);
    OccursContains(x + s + y, t, |x| + i);
  }

  /** Every character of a contained string is a character of the container. */
  lemma ContainedChars(s: string, t: string, k: int)
    requires Contains(s, t) && 0 <= k < |t|
    ensures t[k] in s
  {
    var i := FirstOccurrence(s, t);
    assert s[i + k] == t[k];
  }

  /** An occurrence in `x + " " + y` of a string without spaces lies inside `x` or inside `y`. */
  lemma OccursInJoin(x: string, y: string, t: string, i: int)
    requires forall k :: 0 <= k < |t| ==> t[k] != ' '
    requires OccursAt(x + " " + y, t, i)
    ensures OccursAt(x, t, i) || OccursAt(y, t, i - |x| - 1)
  {
    var x' := x + " ";
    var j := x' + y;
    OccurrenceCovers(j, t, i, |x|);
    assert j[|x|] == ' ';
    if i + |t| <= |x| {
      SliceOfLeft(x', y, i, |t|);
      SliceOfLeft(x, " ", i, |t|);
    } else {
      SliceOfRight(x', y, i - |x'|, |t|);
    }
  }

  /** A string with no space cannot occur across the joint of `x + " " + y`:
      searching the joined text is searching each part. */
  lemma ContainsAcrossSpace(x: string, y: string, t: string)
    requires forall k :: 0 <= k < |t| ==> t[k] != ' '
    ensures Contains(x + " " + y, t) <==> Contains(x, t) || Contains(y, t)
  {
    var x' := x + " ";
    var j := x' + y;
    ContainsIff(x, t);
    ContainsIff(y, t);
    ContainsIff(j, t);
    if Contains(x, t) {
      var i :| OccursAt(x, t, i);
      SliceOfLeft(x, " ", i, |t|);
      SliceOfLeft(x', y, i, |t|);
      assert OccursAt(j, t, i);
    }
    if Contains(y, t) {
      var i :| OccursAt(y, t, i);
      SliceOfRight(x', y, i, |t|);
      assert OccursAt(j, t, |x'| + i);
    }
    if Contains(j, t) {
      var i :| OccursAt(j, t, i);
      OccursInJoin(x, y, t, i);
    }
  }

  /** An occurrence of `t` at `i` shows `t`'s characters at the positions it covers. */
  lemma OccurrenceCovers(s: string, t: string, i: int, m: int)
    requires OccursAt(s, t, i) && 0 <= m < |s|
    ensures i <= m < i + |t| ==> t[m - i] == s[m]
  {
  }

  /** `any(k in s for k in keys)`. */
  predicate ContainsAny(s: string, keys: seq<string>) {
    exists i :: 0 <= i < |keys| && Contains(s, keys[i])
  }

  // ---------------------------------------------------------------------------
  // Subsequences.

  /** `s` keeps some of the elements of `t`, in their order in `t`. */
  predicate IsSubsequence<T(==)>(s: seq<T>, t: seq<T>)
    decreases |t|
  {
    if s == [] then true
    else if t == [] then false
    else if s[|s| - 1] == t[|t| - 1] then IsSubsequence(s[..|s| - 1], t[..|t| - 1])
    else IsSubsequence(s, t[..|t| - 1])
  }

  lemma SubsequenceOfLonger<T>(s: seq<T>, t: seq<T>, x: T)
    requires IsSubsequence(s, t)
    ensures IsSubsequence(s, t + [x])
    decreases |t|, 1
  {
    if s != [] {
      assert (t + [x])[..|t|] == t;
      if s[|s| - 1] == x {
        SubsequenceOfShorter(s, t);
      }
    }
  }

  lemma SubsequenceOfShorter<T>(s: seq<T>, t: seq<T>)
    requires s != [] && IsSubsequence(s, t)
    ensures IsSubsequence(s[..|s| - 1], t)
    decreases |t|, 0
  {
    var init := s[..|s| - 1];
    if t != [] {
      var tInit := t[..|t| - 1];
      assert tInit + [t[|t| - 1]] == t;
      if s[|s| - 1] == t[|t| - 1] {
        SubsequenceOfLonger(init, tInit, t[|t| - 1]);
      } else {
        SubsequenceOfShorter(s, tInit);
        SubsequenceOfLonger(init, tInit, t[|t| - 1]);
      }
    }
  }

  // Sequence facts used by the recursive proofs of the cleaning passes; each
  // is proved here, away from those passes' definitions.

  /** A nonempty sequence is its first element followed by the rest. */
  lemma ConsSplit<T>(x: seq<T>, y: seq<T>)
    requires |x| > 0
    ensures x + y == [x[0]] + (x[1..] + y)
  {
  }

  /** A nonempty sequence is its first element followed by its tail. */
  lemma ConsOf<T>(x: seq<T>)
    requires |x| > 0
    ensures x == [x[0]] + x[1..]
  {
  }

  /** A two-element display in front of a sequence, one element at a time. */
  lemma PairCons<T>(a: T, b: T, t: seq<T>)
    ensures [a, b] + t == [a] + ([b] + t)
  {
  }

  /** Appending is associative. */
  lemma Assoc<T>(a: seq<T>, b: seq<T>, c: seq<T>)
    ensures a + (b + c) == (a + b) + c
  {
  }

  /** Putting one element in front associates with appending. */
  lemma PrependAssoc<T>(c: T, a: seq<T>, r: seq<T>)
    ensures [c] + (a + r) == ([c] + a) + r
  {
  }

  /** The same, with two sequences after the one put in front. */
  lemma PrependAssoc3<T>(c: T, a: seq<T>, m: seq<T>, b: seq<T>)
    ensures [c] + (a + m + b) == [c] + a + m + b
  {
  }

  /** Dropping a prefix of the first part of a three-part join. */
  lemma JoinSlice<T>(x: seq<T>, m: seq<T>, y: seq<T>, n: nat)
    requires n <= |x|
    ensures (x + m + y)[n..] == x[n..] + m + y
    ensures n < |x| ==> (x + m + y)[n] == x[n]
  {
  }

  /** A slice of the tail is a slice of the whole, one position further. */
  lemma SliceOfTail<T>(s: seq<T>, i: nat, n: nat)
    requires i + n < |s|
    ensures s[1..][i..i + n] == s[i + 1..i + 1 + n]
  {
  }

  /** A prefix of the first part is a prefix of the whole. */
  lemma PrefixOfAppend<T>(a: seq<T>, b: seq<T>, n: nat)
    requires n <= |a|
    ensures (a + b)[..n] == a[..n]
  {
  }

  /** The last element and the rest of a join whose second part is not empty. */
  lemma InitOfAppend<T>(a: seq<T>, b: seq<T>)
    requires |b| > 0
    ensures (a + b)[..|a + b| - 1] == a + b[..|b| - 1]
    ensures (a + b)[|a + b| - 1] == b[|b| - 1]
  {
  }

  /** A slice starting at `i` is `s[i]` followed by the slice starting at `i + 1`. */
  lemma SliceCons<T>(s: seq<T>, i: nat, n: nat)
    requires i < n <= |s|
    ensures s[i..n] == [s[i]] + s[i + 1..n]
    ensures s[i..][0] == s[i] && s[i..][1..] == s[i + 1..]
  {
  }

  /** The first `m` elements of `s`, taken through its tail. */
  lemma PrefixCons<T>(s: seq<T>, m: nat)
    requires 0 < m <= |s|
    ensures s[..m] == [s[0]] + s[1..][..m - 1]
    ensures s[1..][m - 1..] == s[m..]
  {
  }

  /** What is missing from a sequence is missing from its tail. */
  lemma NotInTail<T>(x: seq<T>, c: T)
    requires |x| > 0 && c !in x
    ensures c !in x[1..]
  {
  }

  /** Elements put in front of the larger sequence are skipped. */
  lemma {:induction false} SubsequenceInLonger<T>(s: seq<T>, t: seq<T>, u: seq<T>)
    requires IsSubsequence(s, t)
    ensures IsSubsequence(s, u + t)
    decreases |t|
  {
    if s != [] {
      var tInit := t[..|t| - 1];
      assert (u + t)[..|u + t| - 1] == u + tInit;
      if s[|s| - 1] == t[|t| - 1] {
        SubsequenceInLonger(s[..|s| - 1], tInit, u);
      } else {
        SubsequenceInLonger(s, tInit, u);
      }
    }
  }

  /** An element put in front of both sequences is kept. */
  lemma {:induction false} SubsequenceCons<T>(x: T, s: seq<T>, t: seq<T>)
    requires IsSubsequence(s, t)
    ensures IsSubsequence([x] + s, [x] + t)
    decreases |t|
  {
    if t == [] {
      assert s == [];
    } else {
      var tInit := t[..|t| - 1];
      assert ([x] + t)[..|t|] == [x] + tInit;
      if s == [] {
        SubsequenceCons(x, s, tInit);
      } else if s[|s| - 1] == t[|t| - 1] {
        assert ([x] + s)[..|s|] == [x] + s[..|s| - 1];
        SubsequenceCons(x, s[..|s| - 1], tInit);
      } else {
        SubsequenceCons(x, s, tInit);
      }
    }
  }

  /** Length of the longest prefix of `s` without whitespace. */
  function NonSpaceRun(s: string): (n: nat)
    ensures n <= |s|
    ensures forall k :: 0 <= k < n ==> !IsSpace(s[k])
    ensures n < |s| ==> IsSpace(s[n])
  {
    if |s| == 0 || IsSpace(s[0]) then 0 else 1 + NonSpaceRun(s[1..])
  }

  /** Length of the longest prefix of `s` made of whitespace. */
  function SpaceRun(s: string): (n: nat)
    ensures n <= |s|
    ensures forall k :: 0 <= k < n ==> IsSpace(s[k])
    ensures n < |s| ==> !IsSpace(s[n])
  {
    if |s| == 0 || !IsSpace(s[0]) then 0 else 1 + SpaceRun(s[1..])
  }

  /** `str.split()` with no separator: the maximal runs of non-whitespace
      characters, in order. */
  function Words(s: string): (r: seq<string>)
    ensures forall w :: w in r ==> |w| > 0 && forall k :: 0 <= k < |w| ==> !IsSpace(w[k])
    decreases |s|
  {
    if |s| == 0 then []
    else if IsSpace(s[0]) then Words(s[1..])
    else
      var n := NonSpaceRun(s);
      [s[..n]] + Words(s[n..])
  }

  lemma {:induction false} NonSpaceRunBeforeSpace(x: string, c: char, y: string)
    requires IsSpace(c)
    ensures NonSpaceRun(x + [c] + y) == NonSpaceRun(x)
    decreases |x|
  {
    if |x| > 0 && !IsSpace(x[0]) {
      assert (x + [c] + y)[1..] == x[1..] + [c] + y;
      NonSpaceRunBeforeSpace(x[1..], c, y);
    }
  }

  lemma {:induction false} NonSpaceRunOfWord(x: string, y: string)
    requires forall k :: 0 <= k < |x| ==> !IsSpace(x[k])
    requires |y| == 0 || IsSpace(y[0])
    ensures NonSpaceRun(x + y) == |x|
    decreases |x|
  {
    if |x| > 0 {
      NonSpaceRunOfWord(x[1..], y);
      assert (x + y)[1..] == x[1..] + y;
    }
  }

  /** A non-empty run without whitespace is a single word. */
  lemma WordsOfWord(w: string)
    requires |w| > 0
    requires forall k :: 0 <= k < |w| ==> !IsSpace(w[k])
    ensures Words(w) == [w]
  {
    NonSpaceRunOfWord(w, []);
    assert w + [] == w;
    assert w[|w|..] == [];
  }

  /** Whitespace separates: the words on either side of a whitespace character
      are split independently. Together with `Words([]) == []` and
      `WordsOfWord` this determines `Words` on every text. */
  lemma {:induction false} WordsSplitAtSpace(x: string, c: char, y: string)
    requires IsSpace(c)
    ensures Words(x + [c] + y) == Words(x) + Words(y)
    decreases |x|
  {
    var s := x + [c] + y;
    if |x| == 0 {
      assert s[1..] == y;
    } else if IsSpace(x[0]) {
      assert s[1..] == x[1..] + [c] + y;
      WordsSplitAtSpace(x[1..], c, y);
    } else {
      var m := NonSpaceRun(x);
      NonSpaceRunBeforeSpace(x, c, y);
      assert s[..m] == x[..m];
      assert s[m..] == x[m..] + [c] + y;
      WordsSplitAtSpace(x[m..], c, y);
      calc {
        Words(s);
        [x[..m]] + Words(x[m..] + [c] + y);
        [x[..m]] + (Words(x[m..]) + Words(y));
        ([x[..m]] + Words(x[m..])) + Words(y);
      }
    }
  }

  /** `len(s.split())`. */
  function WordCount(s: string): nat {
    |Words(s)|
  }

  /** The characters of `s` that are not whitespace, in order. */
  function NonSpaces(s: string): string {
    if |s| == 0 then [] else (if IsSpace(s[0]) then [] else [s[0]]) + NonSpaces(s[1..])
  }

  function Concat(ws: seq<string>): string {
    if |ws| == 0 then [] else ws[0] + Concat(ws[1..])
  }

  lemma {:induction false} NonSpacesOfRun(s: string, n: nat)
    requires n <= |s|
    requires forall k :: 0 <= k < n ==> !IsSpace(s[k])
    ensures NonSpaces(s) == s[..n] + NonSpaces(s[n..])
    decreases n
  {
    if n > 0 {
      var t := s[1..];
      NonSpacesOfRun(t, n - 1);
      assert t[n - 1..] == s[n..];
      assert s[..n] == [s[0]] + t[..n - 1];
      calc {
        NonSpaces(s);
        [s[0]] + NonSpaces(t);
        [s[0]] + (t[..n - 1] + NonSpaces(s[n..]));
        ([s[0]] + t[..n - 1]) + NonSpaces(s[n..]);
      }
    }
  }

  /** Splitting loses exactly the whitespace: the words, joined, are the
      non-whitespace characters of the text. */
  lemma {:induction false} WordsKeepNonSpaces(s: string)
    ensures Concat(Words(s)) == NonSpaces(s)
    decreases |s|
  {
    if |s| == 0 {
    } else if IsSpace(s[0]) {
      WordsKeepNonSpaces(s[1..]);
    } else {
      var n := NonSpaceRun(s);
      WordsKeepNonSpaces(s[n..]);
      NonSpacesOfRun(s, n);
      assert ([s[..n]] + Words(s[n..]))[1..] == Words(s[n..]);
    }
  }

  /** `str.lstrip()`. */
  function StripLeft(s: string): (r: string)
    ensures |r| <= |s| && r == s[|s| - |r|..]
    ensures forall k :: 0 <= k < |s| - |r| ==> IsSpace(s[k])
    ensures |r| > 0 ==> !IsSpace(r[0])
  {
    s[SpaceRun(s)..]
  }

  /** `str.rstrip()`. */
  function StripRight(s: string): (r: string)
    ensures |r| <= |s| && r == s[..|r|]
    ensures forall k :: |r| <= k < |s| ==> IsSpace(s[k])
    ensures |r| > 0 ==> !IsSpace(r[|r| - 1])
    decreases |s|
  {
    if |s| == 0 || !IsSpace(s[|s| - 1]) then s else StripRight(s[..|s| - 1])
  }

  /** `str.strip()`: the slice of `s` that starts after its leading whitespace
      and neither starts nor ends with whitespace; only whitespace is cut. */
  function Strip(s: string): (r: string)
    ensures SpaceRun(s) + |r| <= |s| && r == s[SpaceRun(s)..SpaceRun(s) + |r|]
    ensures forall k :: 0 <= k < |r| ==> r[k] == s[SpaceRun(s) + k]
    ensures forall k :: SpaceRun(s) + |r| <= k < |s| ==> IsSpace(s[k])
    ensures |r| > 0 ==> !IsSpace(r[0]) && !IsSpace(r[|r| - 1])
  {
    StripRight(StripLeft(s))
  }

  /** Text that neither starts nor ends with whitespace is its own strip. */
  lemma StripWithoutEdgeSpace(s: string)
    requires |s| > 0 ==> !IsSpace(s[0]) && !IsSpace(s[|s| - 1])
    ensures Strip(s) == s
  {
    assert SpaceRun(s) == 0;
  }
}
