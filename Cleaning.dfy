/** The text normalizer `clean_text` (main.py:66-79): four `re.sub` passes,
    applied in order, and a final `strip()`. Each regular expression is written
    out as the left-to-right scan that `re.sub` performs for it.
 */
module Cleaning {
  import opened Text
  import opened Wrappers

  // ---------------------------------------------------------------------------
  // Pass 1: `http[s]?://\S+` is replaced by nothing.

  /** `http[s]?://\S+` matches `s[..m]`. */
  predicate UrlMatch(s: string, m: int) {
    m <= |s|
    && ((StartsWith(s, "https://") && 8 < m) || (StartsWith(s, "http://") && 7 < m))
    && forall k :: 0 <= k < m ==> !IsSpace(s[k])
  }

  /** Length of the match of `http[s]?://\S+` at the start of `s`: a positive
      result is the longest match, which runs up to whitespace or the end of the
      text, and 0 means that no prefix of `s` matches. `\S+` is greedy and needs
      one character. */
  function UrlLength(s: string): (n: nat)
    ensures n <= |s|
    ensures n > 0 ==> UrlMatch(s, n) && (n == |s| || IsSpace(s[n]))
    ensures n == 0 ==> forall m :: !UrlMatch(s, m)
  {
    if StartsWith(s, "https://") && |s| > 8 && !IsSpace(s[8]) then
      assert forall k :: 0 <= k < 8 ==> s[k] == "https://"[k];
      8 + NonSpaceRun(s[8..])
    else if StartsWith(s, "http://") && |s| > 7 && !IsSpace(s[7]) then
      assert forall k :: 0 <= k < 7 ==> s[k] == "http://"[k];
      7 + NonSpaceRun(s[7..])
    else
      0
  }

  /** Whether the pattern matches depends only on the characters it covers. */
  lemma UrlMatchLocal(x: string, y: string, m: nat)
    requires UrlMatch(x, m) && m <= |y| && x[..m] == y[..m]
    ensures UrlMatch(y, m)
  {
    forall k | 0 <= k < m ensures x[k] == y[k] {
      assert x[k] == x[..m][k];
      assert y[k] == y[..m][k];
    }
    assert x[..7] == y[..7];
    if 8 < m {
      assert x[..8] == y[..8];
    }
  }

  /** The URL pass. It only deletes: what it returns keeps characters of `s`
      in their order. */
  function RemoveUrls(s: string): (r: string)
    ensures |r| <= |s|
    ensures IsSubsequence(r, s)
    decreases |s|
  {
    if |s| == 0 then []
    else if UrlLength(s) > 0 then
      var n := UrlLength(s);
      var rest := RemoveUrls(s[n..]);
      SubsequenceInLonger(rest, s[n..], s[..n]);
      assert s[..n] + s[n..] == s;
      rest
    else
      var rest := RemoveUrls(s[1..]);
      SubsequenceCons(s[0], rest, s[1..]);
      assert [s[0]] + s[1..] == s;
      [s[0]] + rest
  }

  /** A URL seen in front of the pass's output was already there in front of
      its input: a removed URL ends at whitespace or at the end of the text, so
      no match can reach across it. */
  lemma {:induction false} UrlBeforeRemoval(a: string, t: string, m: nat) returns (m': nat)
    requires UrlMatch(a + RemoveUrls(t), m)
    ensures UrlMatch(a + t, m')
    decreases |t|
  {
    if |t| == 0 {
      assert a + RemoveUrls(t) == a + t;
      m' := m;
    } else if UrlLength(t) > 0 {
      var m1 := UrlBeforeRemoval(a, t[UrlLength(t)..], m);
      UrlNotAcrossRemoved(a, t, m1);
      m' := m1;
    } else {
      KeptMovesToPrefix(a, t, RemoveUrls(t[1..]));
      m' := UrlBeforeRemoval(a + [t[0]], t[1..], m);
    }
  }

  /** The first character of `t`, kept, joins the prefix. */
  lemma KeptMovesToPrefix(a: string, t: string, rest: string)
    requires |t| > 0
    ensures a + ([t[0]] + rest) == (a + [t[0]]) + rest
    ensures (a + [t[0]]) + t[1..] == a + t
  {
  }

  /** A match in front of what follows a URL stops before that URL. */
  lemma UrlNotAcrossRemoved(a: string, t: string, m: int)
    requires UrlLength(t) > 0 && UrlMatch(a + t[UrlLength(t)..], m)
    ensures UrlMatch(a + t, m)
  {
    var n := UrlLength(t);
    var x := a + t[n..];
    assert |a| < |x| ==> x[|a|] == t[n];
    assert m <= |a|;
    assert (a + t)[..m] == x[..m];
    UrlMatchLocal(x, a + t, m);
  }

  /** No URL is left: the pattern matches at no position of the output, so a
      second pass would find nothing to remove. */
  lemma {:induction false} RemoveUrlsLeavesNoUrl(s: string)
    ensures forall i :: 0 <= i < |RemoveUrls(s)| ==> UrlLength(RemoveUrls(s)[i..]) == 0
    decreases |s|
  {
    if |s| > 0 {
      var r := RemoveUrls(s);
      if UrlLength(s) > 0 {
        RemoveUrlsLeavesNoUrl(s[UrlLength(s)..]);
      } else {
        var rest := RemoveUrls(s[1..]);
        RemoveUrlsLeavesNoUrl(s[1..]);
        assert r == [s[0]] + rest;
        assert [s[0]] + s[1..] == s;
        forall i | 0 <= i < |r| ensures UrlLength(r[i..]) == 0 {
          if i == 0 {
            if UrlLength(r) > 0 {
              var m := UrlBeforeRemoval([s[0]], s[1..], UrlLength(r));
            }
          } else {
            assert r[i..] == rest[i - 1..];
          }
        }
      }
    }
  }

  /** A URL cannot run across whitespace: the match at the front of `x + [c] + y`
      is the match at the front of `x`. */
  lemma UrlLengthBeforeSpace(x: string, c: char, y: string)
    requires IsSpace(c)
    ensures UrlLength(x + [c] + y) == UrlLength(x)
  {
    var s := x + [c] + y;
    var n := UrlLength(s);
    if n > 0 {
      assert IsSpace(s[|x|]);
      assert n <= |x|;
      assert s[..n] == x[..n];
      UrlMatchLocal(s, x, n);
    }
    var m := UrlLength(x);
    if m > 0 {
      assert s[..m] == x[..m];
      UrlMatchLocal(x, s, m);
      assert m == |x| || IsSpace(x[m]);
      assert IsSpace(s[m]);
    }
  }

  /** Whitespace separates: the URL pass treats the text on either side of a
      whitespace character independently and keeps the whitespace. */
  lemma {:induction false} RemoveUrlsSplitAtSpace(x: string, c: char, y: string)
    requires IsSpace(c)
    ensures RemoveUrls(x + [c] + y) == RemoveUrls(x) + [c] + RemoveUrls(y)
    decreases |x|
  {
    var s := x + [c] + y;
    UrlLengthBeforeSpace(x, c, y);
    if |x| == 0 {
      assert s == [c] + y && s[1..] == y;
    } else if UrlLength(x) > 0 {
      var n := UrlLength(x);
      assert s[n..] == x[n..] + [c] + y;
      RemoveUrlsSplitAtSpace(x[n..], c, y);
    } else {
      assert s[1..] == x[1..] + [c] + y;
      RemoveUrlsSplitAtSpace(x[1..], c, y);
    }
  }

  /** Characters at whose positions no URL starts pass unchanged. */
  lemma {:induction false} RemoveUrlsKeepsPrefix(s: string, i: nat, n: nat)
    requires i <= n <= |s|
    requires forall k :: i <= k < n ==> UrlLength(s[k..]) == 0
    ensures RemoveUrls(s[i..]) == s[i..n] + RemoveUrls(s[n..])
    decreases n - i
  {
    if i < n {
      SliceCons(s, i, n);
      RemoveUrlsKeepsHead(s[i..]);
      RemoveUrlsKeepsPrefix(s, i + 1, n);
      PrependAssoc(s[i], s[i + 1..n], RemoveUrls(s[n..]));
    }
  }

  /** A character at which no URL starts is kept. */
  lemma RemoveUrlsKeepsHead(t: string)
    requires |t| > 0 && UrlLength(t) == 0
    ensures RemoveUrls(t) == [t[0]] + RemoveUrls(t[1..])
  {
  }

  /** No URL starts before a `(` without a `:` in between: `http://` and
      `https://` hold neither `(` nor a `:` after their fifth character. */
  lemma NoUrlBeforeParen(s: string, i: nat, p: nat)
    requires i <= p < |s| && s[p] == '('
    requires forall k :: i <= k < p ==> s[k] != ':'
    ensures UrlLength(s[i..]) == 0
  {
    var v := s[i..];
    assert v[p - i] == '(';
    if |v| >= 7 {
      if p - i < 7 {
        assert v[..7][p - i] == '(';
      } else {
        assert v[..7][4] == s[i + 4];
      }
    }
    if |v| >= 8 {
      if p - i < 8 {
        assert v[..8][p - i] == '(';
      } else {
        assert v[..8][5] == s[i + 5];
      }
    }
  }

  /** Text in which `://` never occurs passes the URL pass unchanged. */
  lemma {:induction false} RemoveUrlsWithoutScheme(s: string)
    requires !Contains(s, "://")
    ensures RemoveUrls(s) == s
    decreases |s|
  {
    if |s| > 0 {
      if UrlLength(s) > 0 {
        UrlHasScheme(s, UrlLength(s));
        assert false;
      }
      RemoveUrlsWithoutScheme(s[1..]);
      assert [s[0]] + s[1..] == s;
    }
  }

  /** Every match holds `://`. */
  lemma UrlHasScheme(s: string, m: int)
    requires UrlMatch(s, m)
    ensures Contains(s, "://")
  {
    if StartsWith(s, "https://") {
      assert s[5..8] == "https://"[5..8];
      OccursContains(s, "://", 5);
    } else {
      assert s[4..7] == "http://"[4..7];
      OccursContains(s, "://", 4);
    }
  }

  lemma NoColonNoUrl(s: string)
    requires ':' !in s
    ensures RemoveUrls(s) == s
  {
    if Contains(s, "://") {
      ContainedChars(s, "://", 0);
    }
    RemoveUrlsWithoutScheme(s);
  }

  // ---------------------------------------------------------------------------
  // Pass 2: `\[.*?\]\(.*?\)` is replaced by nothing (`.` is any character but a newline).

  /** No newline in `s[a..b]`. */
  predicate NoNewline(s: string, a: int, b: int)
    requires 0 <= a && b <= |s|
  {
    forall k :: a <= k < b ==> s[k] != '\n'
  }

  /** `.*?\]\(` matches `s[p..j + 2]`. */
  predicate LinkTextEndAt(s: string, p: nat, j: int) {
    p <= j && j + 1 < |s| && s[j] == ']' && s[j + 1] == '(' && NoNewline(s, p, j)
  }

  /** `.*?\)` matches `s[p..k + 1]`. */
  predicate ParenAt(s: string, p: nat, k: int) {
    p <= k < |s| && s[k] == ')' && NoNewline(s, p, k)
  }

  /** `.*?\)` matches from just after the `](` at `j` up to `s[k]`. */
  predicate LinkTargetEndAt(s: string, j: nat, k: int) {
    ParenAt(s, j + 2, k)
  }

  /** The whole pattern matches `s[..k + 1]`, with the `](` at `j`. */
  predicate LinkMatch(s: string, j: int, k: int) {
    |s| > 0 && s[0] == '[' && LinkTextEndAt(s, 1, j) && LinkTargetEndAt(s, j, k)
  }

  /** The first `](` at or after `p` on the current line. */
  function FindLinkTextEnd(s: string, p: nat): (r: Option<nat>)
    ensures r.Some? ==> LinkTextEndAt(s, p, r.value)
    ensures r.Some? ==> forall j :: LinkTextEndAt(s, p, j) ==> r.value <= j
    ensures r.None? ==> forall j :: !LinkTextEndAt(s, p, j)
    decreases |s| - p
  {
    if p + 1 >= |s| || s[p] == '\n' then None
    else if s[p] == ']' && s[p + 1] == '(' then Some(p)
    else
      assert forall j :: LinkTextEndAt(s, p, j) <==> LinkTextEndAt(s, p + 1, j) by {
        forall j ensures LinkTextEndAt(s, p, j) <==> LinkTextEndAt(s, p + 1, j) {
          if LinkTextEndAt(s, p + 1, j) {
            assert NoNewline(s, p, j);
          }
        }
      }
      FindLinkTextEnd(s, p + 1)
  }

  /** The first `)` at or after `p` on the current line. */
  function FindCloseParen(s: string, p: nat): (r: Option<nat>)
    ensures r.Some? ==> ParenAt(s, p, r.value)
    ensures r.Some? ==> forall k :: ParenAt(s, p, k) ==> r.value <= k
    ensures r.None? ==> forall k :: !ParenAt(s, p, k)
    decreases |s| - p
  {
    if p >= |s| || s[p] == '\n' then None
    else if s[p] == ')' then Some(p)
    else
      assert forall k :: ParenAt(s, p, k) <==> ParenAt(s, p + 1, k) by {
        forall k ensures ParenAt(s, p, k) <==> ParenAt(s, p + 1, k) {
          if ParenAt(s, p + 1, k) {
            assert NoNewline(s, p, k);
          }
        }
      }
      FindCloseParen(s, p + 1)
  }

  /** The lazy quantifiers pick the first `](` and then the first `)` after it. */
  ghost predicate LazyLinkMatch(s: string, j: nat, n: int) {
    LinkMatch(s, j, n - 1)
    && (forall j' :: LinkTextEndAt(s, 1, j') ==> j <= j')
    && (forall k' :: LinkTargetEndAt(s, j, k') ==> n - 1 <= k')
  }

  /** Length of the lazy match of `\[.*?\]\(.*?\)` at the start of `s`, or 0. */
  function LinkLength(s: string): (n: nat)
    ensures n <= |s|
    ensures n > 0 ==> exists j :: LazyLinkMatch(s, j, n)
  {
    if |s| > 0 && s[0] == '[' then
      match FindLinkTextEnd(s, 1)
      case None => 0
      case Some(j) =>
        match FindCloseParen(s, j + 2)
        case None => 0
        case Some(k) =>
          assert LazyLinkMatch(s, j, k + 1);
          k + 1
    else 0
  }

  /** Backtracking into the first `.*?` never helps the regular expression:
      whenever some `[..](..)` matches at the start of `s`, the scan finds one. */
  lemma LinkLengthFindsEveryLink(s: string, j: int, k: int)
    requires LinkMatch(s, j, k)
    ensures LinkLength(s) > 0
  {
    var j0 := FindLinkTextEnd(s, 1).value;
    assert j0 <= j;
    assert ParenAt(s, j0 + 2, k) by {
      forall i | j0 + 2 <= i < k ensures s[i] != '\n' {
        if i < j {
          assert NoNewline(s, 1, j);
        } else if i >= j + 2 {
          assert NoNewline(s, j + 2, k);
        }
      }
    }
  }

  /** The link pass. It only deletes: what it returns keeps characters of `s`
      in their order. */
  function RemoveLinks(s: string): (r: string)
    ensures |r| <= |s|
    ensures IsSubsequence(r, s)
    decreases |s|
  {
    if |s| == 0 then []
    else if LinkLength(s) > 0 then
      var n := LinkLength(s);
      var rest := RemoveLinks(s[n..]);
      SubsequenceInLonger(rest, s[n..], s[..n]);
      assert s[..n] + s[n..] == s;
      rest
    else
      var rest := RemoveLinks(s[1..]);
      SubsequenceCons(s[0], rest, s[1..]);
      assert [s[0]] + s[1..] == s;
      [s[0]] + rest
  }

  /** Whether the pattern matches depends only on the characters it covers. */
  lemma LinkMatchLocal(x: string, y: string, j: int, k: int)
    requires LinkMatch(x, j, k) && k < |y| && x[..k + 1] == y[..k + 1]
    ensures LinkMatch(y, j, k)
  {
    forall i | 0 <= i <= k ensures x[i] == y[i] {
      assert x[i] == x[..k + 1][i];
      assert y[i] == y[..k + 1][i];
    }
  }

  /** A match covers no newline. */
  lemma LinkMatchHasNoNewline(s: string, j: int, k: int)
    requires LinkMatch(s, j, k)
    ensures NoNewline(s, 0, k + 1)
  {
    forall i | 0 <= i <= k ensures s[i] != '\n' {
      if 1 <= i < j {
        assert NoNewline(s, 1, j);
      } else if j + 2 <= i < k {
        assert NoNewline(s, j + 2, k);
      }
    }
  }

  /** A `[` starting a line fragment in front of a link reaches that link's `](`
      and `)`. */
  lemma LinkAcrossPrefix(a: string, t: string, j: int, k: int)
    requires |a| > 0 && a[0] == '[' && NoNewline(a, 0, |a|)
    requires LinkMatch(t, j, k)
    ensures LinkMatch(a + t, |a| + j, |a| + k)
  {
    var y := a + t;
    LinkMatchHasNoNewline(t, j, k);
    forall i | 0 <= i < |a| + k + 1 ensures y[i] != '\n' {
      if i >= |a| {
        assert y[i] == t[i - |a|];
      }
    }
  }

  /** A link seen in front of the pass's output was already there in front of
      its input: either it lies in front, or it began in front and ran into the
      text where a link was removed, and then it reaches that link's own `](`
      and `)`. */
  lemma {:induction false} LinkBeforeRemoval(a: string, t: string, j: int, k: int) returns (j': int, k': int)
    requires LinkMatch(a + RemoveLinks(t), j, k)
    ensures LinkMatch(a + t, j', k')
    decreases |t|
  {
    if |t| == 0 {
      assert a + RemoveLinks(t) == a + t;
      j', k' := j, k;
    } else if LinkLength(t) > 0 {
      var n := LinkLength(t);
      var j1, k1 := LinkBeforeRemoval(a, t[n..], j, k);
      j', k' := LinkNotAcrossRemoved(a, t, j1, k1);
    } else {
      KeptMovesToPrefix(a, t, RemoveLinks(t[1..]));
      j', k' := LinkBeforeRemoval(a + [t[0]], t[1..], j, k);
    }
  }

  lemma LinkNotAcrossRemoved(a: string, t: string, j: int, k: int) returns (j': int, k': int)
    requires LinkLength(t) > 0 && LinkMatch(a + t[LinkLength(t)..], j, k)
    ensures LinkMatch(a + t, j', k')
  {
    var n := LinkLength(t);
    var x := a + t[n..];
    var jm: nat :| LazyLinkMatch(t, jm, n);
    if |a| == 0 {
      assert a + t == t;
      j', k' := jm, n - 1;
    } else if k < |a| {
      assert (a + t)[..k + 1] == x[..k + 1];
      LinkMatchLocal(x, a + t, j, k);
      j', k' := j, k;
    } else {
      LinkMatchHasNoNewline(x, j, k);
      assert NoNewline(a, 0, |a|) by {
        forall i | 0 <= i < |a| ensures a[i] != '\n' {
          assert a[i] == x[i];
        }
      }
      assert a[0] == x[0];
      LinkAcrossPrefix(a, t, jm, n - 1);
      j', k' := |a| + jm, |a| + n - 1;
    }
  }

  /** A character the pass keeps, because no link starts at it, starts no link
      in the output either. */
  lemma KeptStartsNoLink(s: string)
    requires |s| > 0 && LinkLength(s) == 0
    ensures LinkLength([s[0]] + RemoveLinks(s[1..])) == 0
  {
    var r := [s[0]] + RemoveLinks(s[1..]);
    if LinkLength(r) > 0 {
      var jr: nat :| LazyLinkMatch(r, jr, LinkLength(r));
      var j', k' := LinkBeforeRemoval([s[0]], s[1..], jr, LinkLength(r) - 1);
      assert [s[0]] + s[1..] == s;
      LinkLengthFindsEveryLink(s, j', k');
    }
  }

  /** No link is left: the pattern matches at no position of the output, so a
      second pass would find nothing to remove. */
  lemma {:induction false} RemoveLinksLeavesNoLink(s: string)
    ensures forall i :: 0 <= i < |RemoveLinks(s)| ==> LinkLength(RemoveLinks(s)[i..]) == 0
    decreases |s|
  {
    if |s| > 0 {
      if LinkLength(s) > 0 {
        RemoveLinksLeavesNoLink(s[LinkLength(s)..]);
      } else {
        var rest := RemoveLinks(s[1..]);
        var r := [s[0]] + rest;
        assert RemoveLinks(s) == r;
        RemoveLinksLeavesNoLink(s[1..]);
        KeptStartsNoLink(s);
        forall i | 0 < i < |r| ensures LinkLength(r[i..]) == 0 {
          assert r[i..] == rest[i - 1..];
        }
      }
    }
  }

  /** A link starts with `[`: a stretch without `[` in front passes the link
      pass unchanged, whatever follows it. */
  lemma {:induction false} RemoveLinksBeforeBracket(x: string, y: string)
    requires '[' !in x
    ensures RemoveLinks(x + y) == x + RemoveLinks(y)
    decreases |x|
  {
    if |x| > 0 {
      NotInTail(x, '[');
      ConsSplit(x, y);
      RemoveLinksKeepsHead(x[0], x[1..] + y);
      RemoveLinksBeforeBracket(x[1..], y);
      ConsSplit(x, RemoveLinks(y));
    } else {
      assert x + y == y;
    }
  }

  /** A character other than `[` is kept. */
  lemma RemoveLinksKeepsHead(c: char, t: string)
    requires c != '['
    ensures RemoveLinks([c] + t) == [c] + RemoveLinks(t)
  {
    var s := [c] + t;
    assert s[0] == c && s[1..] == t;
    assert LinkLength(s) == 0;
  }

  /** The search for `](` stops at a newline. */
  lemma FindLinkTextEndBeforeNewline(x: string, y: string, p: nat)
    requires p <= |x|
    ensures FindLinkTextEnd(x + ['\n'] + y, p) == FindLinkTextEnd(x, p)
  {
    var s := x + ['\n'] + y;
    assert s[|x|] == '\n';
    forall j ensures LinkTextEndAt(s, p, j) <==> LinkTextEndAt(x, p, j) {
      if LinkTextEndAt(s, p, j) {
        assert j < |x| && j + 1 < |x|;
        assert s[j] == x[j] && s[j + 1] == x[j + 1];
        assert NoNewline(x, p, j) by {
          forall k | p <= k < j ensures x[k] != '\n' {
            assert x[k] == s[k];
          }
        }
      }
      if LinkTextEndAt(x, p, j) {
        assert s[j] == x[j] && s[j + 1] == x[j + 1];
        assert NoNewline(s, p, j) by {
          forall k | p <= k < j ensures s[k] != '\n' {
            assert x[k] == s[k];
          }
        }
      }
    }
  }

  /** The search for `)` stops at a newline. */
  lemma FindCloseParenBeforeNewline(x: string, y: string, p: nat)
    requires p <= |x|
    ensures FindCloseParen(x + ['\n'] + y, p) == FindCloseParen(x, p)
  {
    var s := x + ['\n'] + y;
    assert s[|x|] == '\n';
    forall k ensures ParenAt(s, p, k) <==> ParenAt(x, p, k) {
      if ParenAt(s, p, k) {
        assert k < |x|;
        assert s[k] == x[k];
        assert NoNewline(x, p, k) by {
          forall i | p <= i < k ensures x[i] != '\n' {
            assert x[i] == s[i];
          }
        }
      }
      if ParenAt(x, p, k) {
        assert s[k] == x[k];
        assert NoNewline(s, p, k) by {
          forall i | p <= i < k ensures s[i] != '\n' {
            assert x[i] == s[i];
          }
        }
      }
    }
  }

  /** A link cannot run across a newline: the match at the front of
      `x + "\n" + y` is the match at the front of `x`. */
  lemma LinkLengthBeforeNewline(x: string, y: string)
    ensures LinkLength(x + ['\n'] + y) == LinkLength(x)
  {
    var s := x + ['\n'] + y;
    if |x| > 0 {
      assert s[0] == x[0];
      FindLinkTextEndBeforeNewline(x, y, 1);
      var e := FindLinkTextEnd(x, 1);
      if e.Some? {
        FindCloseParenBeforeNewline(x, y, e.value + 2);
      }
    }
  }

  /** A newline separates: the link pass treats the text on either side of a
      newline independently and keeps the newline. */
  lemma {:induction false} RemoveLinksSplitAtNewline(x: string, y: string)
    ensures RemoveLinks(x + ['\n'] + y) == RemoveLinks(x) + ['\n'] + RemoveLinks(y)
    decreases |x|
  {
    var s := x + ['\n'] + y;
    LinkLengthBeforeNewline(x, y);
    if |x| == 0 {
      assert s == ['\n'] + y && s[1..] == y;
    } else if LinkLength(x) > 0 {
      var n := LinkLength(x);
      JoinSlice(x, ['\n'], y, n);
      RemoveLinksSplitAtNewline(x[n..], y);
    } else {
      JoinSlice(x, ['\n'], y, 1);
      JoinSlice(x, ['\n'], y, 0);
      RemoveLinksSplitAtNewline(x[1..], y);
      PrependAssoc3(x[0], RemoveLinks(x[1..]), ['\n'], RemoveLinks(y));
    }
  }

  /** Every link holds `](`, so text without it passes the link pass unchanged. */
  lemma {:induction false} RemoveLinksWithoutLinkEnd(s: string)
    requires !Contains(s, "](")
    ensures RemoveLinks(s) == s
    decreases |s|
  {
    if |s| > 0 {
      if LinkLength(s) > 0 {
        LinkHoldsLinkEnd(s);
        assert false;
      }
      RemoveLinksWithoutLinkEnd(s[1..]);
      ConsOf(s);
    }
  }

  /** A link at the start of `s` holds `](`. */
  lemma LinkHoldsLinkEnd(s: string)
    requires LinkLength(s) > 0
    ensures Contains(s, "](")
  {
    var j := FindLinkTextEnd(s, 1).value;
    assert s[j..j + 2] == "](";
    OccursContains(s, "](", j);
  }

  /** Every link ends with `)`, so text without it passes the link pass
      unchanged. */
  lemma {:induction false} RemoveLinksWithoutParen(s: string)
    requires ')' !in s
    ensures RemoveLinks(s) == s
    decreases |s|
  {
    if |s| > 0 {
      if LinkLength(s) > 0 {
        assert false;
      }
      assert ')' !in s[1..] by {
        forall k | 0 <= k < |s| - 1 ensures s[1..][k] != ')' {
          assert s[1..][k] == s[k + 1];
        }
      }
      RemoveLinksWithoutParen(s[1..]);
      assert [s[0]] + s[1..] == s;
    }
  }

  /** Text without `[` passes the link pass unchanged. */
  lemma {:induction false} RemoveLinksWithoutBracket(s: string)
    requires '[' !in s
    ensures RemoveLinks(s) == s
    decreases |s|
  {
    if |s| > 0 {
      assert s[0] != '[';
      assert '[' !in s[1..] by {
        forall k | 0 <= k < |s| - 1 ensures s[1..][k] != '[' {
          assert s[1..][k] == s[k + 1];
        }
      }
      RemoveLinksWithoutBracket(s[1..]);
    }
  }

  // ---------------------------------------------------------------------------
  // Pass 3: `\s+` is replaced by one space.

  function CollapseSpaces(s: string): (r: string)
    ensures |r| <= |s|
    ensures |r| == 0 <==> |s| == 0
    ensures |r| > 0 ==> (IsSpace(r[0]) <==> IsSpace(s[0]))
    ensures |r| > 0 ==> (IsSpace(r[|r| - 1]) <==> IsSpace(s[|s| - 1]))
    ensures PlainSpaces(r)
    ensures forall k :: 0 <= k < |r| - 1 ==> !IsSpace(r[k]) || !IsSpace(r[k + 1])
    decreases |s|
  {
    if |s| == 0 then []
    else if IsSpace(s[0]) then [' '] + CollapseSpaces(s[SpaceRun(s)..])
    else [s[0]] + CollapseSpaces(s[1..])
  }

  lemma {:induction false} WordsSkipSpaces(s: string, n: nat)
    requires n <= |s|
    requires forall k :: 0 <= k < n ==> IsSpace(s[k])
    ensures Words(s) == Words(s[n..])
    decreases n
  {
    if n > 0 {
      WordsSkipSpaces(s[1..], n - 1);
      assert s[1..][n - 1..] == s[n..];
    }
  }


  lemma {:induction false} CollapseOfWord(s: string, m: nat)
    requires m <= |s|
    requires forall k :: 0 <= k < m ==> !IsSpace(s[k])
    ensures CollapseSpaces(s) == s[..m] + CollapseSpaces(s[m..])
    decreases m
  {
    if m > 0 {
      var t := s[1..];
      assert !IsSpace(s[0]);
      PrefixCons(s, m);
      CollapseOfWord(t, m - 1);
      PrependAssoc(s[0], t[..m - 1], CollapseSpaces(s[m..]));
    }
  }

  /** Text without whitespace passes the whitespace pass unchanged. */
  lemma CollapseWithoutSpace(s: string)
    requires forall k :: 0 <= k < |s| ==> !IsSpace(s[k])
    ensures CollapseSpaces(s) == s
  {
    CollapseOfWord(s, |s|);
    assert s[..|s|] == s && s[|s|..] == [];
  }

  /** Collapsing whitespace leaves the words of the text as they were. */
  lemma {:induction false} CollapseKeepsWords(s: string)
    ensures Words(CollapseSpaces(s)) == Words(s)
    decreases |s|
  {
    if |s| == 0 {
    } else if IsSpace(s[0]) {
      var n := SpaceRun(s);
      CollapseKeepsWords(s[n..]);
      WordsSkipSpaces(s, n);
      assert ([' '] + CollapseSpaces(s[n..]))[1..] == CollapseSpaces(s[n..]);
    } else {
      var m := NonSpaceRun(s);
      var rest := CollapseSpaces(s[m..]);
      CollapseKeepsWords(s[m..]);
      CollapseOfWord(s, m);
      NonSpaceRunOfWord(s[..m], rest);
      assert (s[..m] + rest)[..m] == s[..m];
      assert (s[..m] + rest)[m..] == rest;
    }
  }

  // ---------------------------------------------------------------------------
  // Pass 4: `[^\w\s.,!?-]` is replaced by nothing.

  /** The punctuation that the class `[\w\s.,!?-]` names. */
  predicate IsBasicPunctuation(c: char) {
    c == '.' || c == ',' || c == '!' || c == '?' || c == '-'
  }

  /** The characters that the class `[\w\s.,!?-]` keeps. */
  predicate KeepChar(c: char) {
    IsWordChar(c) || IsSpace(c) || IsBasicPunctuation(c)
  }

  function StripSpecial(s: string): (r: string)
    ensures |r| <= |s|
    ensures IsSubsequence(r, s)
    ensures forall k :: 0 <= k < |r| ==> KeepChar(r[k])
    ensures PlainSpaces(s) ==> PlainSpaces(r)
  {
    if |s| == 0 then []
    else
      var rest := StripSpecial(s[1..]);
      assert [s[0]] + s[1..] == s;
      if KeepChar(s[0]) then
        SubsequenceCons(s[0], rest, s[1..]);
        [s[0]] + rest
      else
        SubsequenceInLonger(rest, s[1..], [s[0]]);
        assert [] + rest == rest;
        [] + rest
  }

  /** The character strip works on each character alone. */
  lemma {:induction false} StripSpecialConcat(x: string, y: string)
    ensures StripSpecial(x + y) == StripSpecial(x) + StripSpecial(y)
    decreases |x|
  {
    if |x| > 0 {
      ConsSplit(x, y);
      ConsOf(x);
      StripSpecialConcat(x[1..], y);
      StripSpecialCons(x[0], x[1..]);
      StripSpecialCons(x[0], x[1..] + y);
      var a := if KeepChar(x[0]) then [x[0]] else [];
      Assoc(a, StripSpecial(x[1..]), StripSpecial(y));
    } else {
      assert x + y == y;
    }
  }

  /** Text made of kept characters passes the character strip unchanged. */
  lemma {:induction false} StripSpecialOfKept(s: string)
    requires forall k :: 0 <= k < |s| ==> KeepChar(s[k])
    ensures StripSpecial(s) == s
    decreases |s|
  {
    if |s| > 0 {
      assert KeepChar(s[0]);
      StripSpecialOfKept(s[1..]);
      assert [s[0]] + s[1..] == s;
    }
  }

  /** The pass keeps every occurrence of a kept character and no occurrence of any other. */
  lemma {:induction false} StripSpecialCounts(s: string, c: char)
    ensures multiset(StripSpecial(s))[c] == if KeepChar(c) then multiset(s)[c] else 0
  {
    if |s| > 0 {
      StripSpecialCounts(s[1..], c);
      assert s == [s[0]] + s[1..];
    }
  }

  // ---------------------------------------------------------------------------
  // The whole normalizer.

  /** The characters that can survive `clean_text`: after pass 3 the only
      whitespace left is the plain space. */
  predicate CleanChar(c: char) {
    IsWordChar(c) || c == ' ' || IsBasicPunctuation(c)
  }

  /** What `clean_text` guarantees of its output. */
  predicate IsClean(s: string) {
    (forall k :: 0 <= k < |s| ==> CleanChar(s[k]))
    && (|s| > 0 ==> s[0] != ' ' && s[|s| - 1] != ' ')
  }

  /** Only plain spaces are left of the whitespace. */
  predicate PlainSpaces(s: string) {
    forall k :: 0 <= k < |s| && IsSpace(s[k]) ==> s[k] == ' '
  }

  /** Passes 4 and the strip turn collapsed text into clean text. */
  lemma StripOfCollapsedIsClean(collapsed: string)
    requires PlainSpaces(collapsed)
    ensures IsClean(Strip(StripSpecial(collapsed)))
  {
    var stripped := StripSpecial(collapsed);
    var r := Strip(stripped);
    forall k | 0 <= k < |r| ensures CleanChar(r[k]) {
      var j := SpaceRun(stripped) + k;
      assert r[k] == stripped[j];
      assert KeepChar(stripped[j]) && (IsSpace(stripped[j]) ==> stripped[j] == ' ');
    }
    if |r| > 0 {
      assert !IsSpace(r[0]) && !IsSpace(r[|r| - 1]);
    }
  }

  function CleanText(text: string): (r: string)
    ensures text == [] ==> r == []
    ensures |r| <= |text|
    ensures IsClean(r)
  {
    if text == [] then []
    else
      var collapsed := CollapseSpaces(RemoveLinks(RemoveUrls(text)));
      StripOfCollapsedIsClean(collapsed);
      Strip(StripSpecial(collapsed))
  }

  /** Clean text holds no URL scheme and no markdown link syntax. */
  lemma CleanHasNoUrl(r: string)
    requires IsClean(r)
    ensures !Contains(r, "://")
    ensures !Contains(r, "](")
  {
    assert !CleanChar(':') && !CleanChar(']');
    if Contains(r, "://") {
      ContainedChars(r, "://", 0);
    }
    if Contains(r, "](") {
      ContainedChars(r, "](", 0);
    }
  }

  /** No URL scheme, no markdown link syntax and no other character outside the
      whitelist survives the normalizer. */
  lemma CleanTextHasNoUrl(text: string)
    ensures !Contains(CleanText(text), "://")
    ensures !Contains(CleanText(text), "](")
  {
    CleanHasNoUrl(CleanText(text));
  }

  /** Text that is one URL, such as `https://example.com/x`, cleans to nothing:
      the first pass removes all of it. Without that pass, its letters would
      survive the character strip. */
  lemma UrlAloneCleansToEmpty(s: string)
    requires |s| > 0 && UrlLength(s) == |s|
    ensures CleanText(s) == []
  {
    assert RemoveUrls(s) == RemoveUrls(s[|s|..]);
  }

  /** Text that is one markdown link, such as `[see](here)`, cleans to nothing:
      the second pass removes all of it. */
  lemma LinkAloneCleansToEmpty(s: string)
    requires |s| > 0 && LinkLength(s) == |s| && !Contains(s, "://")
    ensures CleanText(s) == []
  {
    RemoveUrlsWithoutScheme(s);
    assert RemoveLinks(s) == RemoveLinks(s[|s|..]);
  }

  /** A markdown link such as `[see](here)` is one `LinkLength` match. */
  lemma LinkExample()
    ensures LinkLength("[see](here)") == 11
    ensures CleanText("[see](here)") == []
  {
    LinkExampleLength();
    LinkExampleHasNoScheme();
    LinkAloneCleansToEmpty("[see](here)");
  }

  lemma LinkExampleLength()
    ensures LinkLength("[see](here)") == 11
  {
    var s := "[see](here)";
    assert s[4] == ']' && s[5] == '(' && s[10] == ')';
    assert FindLinkTextEnd(s, 4) == Some(4);
    assert FindLinkTextEnd(s, 3) == Some(4);
    assert FindLinkTextEnd(s, 2) == Some(4);
    assert FindLinkTextEnd(s, 1) == Some(4);
    assert FindCloseParen(s, 10) == Some(10);
    assert FindCloseParen(s, 9) == Some(10);
    assert FindCloseParen(s, 8) == Some(10);
    assert FindCloseParen(s, 7) == Some(10);
    assert FindCloseParen(s, 6) == Some(10);
  }

  lemma LinkExampleHasNoScheme()
    ensures !Contains("[see](here)", "://")
  {
    if Contains("[see](here)", "://") {
      ContainedChars("[see](here)", "://", 0);
      assert false;
    }
  }

  /** A markdown link whose target is a URL keeps its text, as
      `[see](https://x.org)` cleans to `see`: the URL pass runs first and takes
      the target together with the closing `)`, because `\S+` runs up to
      whitespace, so the link pass no longer finds a link and the character
      strip drops `[`, `]` and `(`. */
  lemma LinkToUrlKeepsText(w: string, d: string)
    requires forall k :: 0 <= k < |w| ==> IsWordChar(w[k])
    requires forall k :: 0 <= k < |d| ==> !IsSpace(d[k])
    ensures CleanText(['['] + w + [']', '('] + ("https://" + d + [')'])) == w
  {
    var u := "https://" + d + [')'];
    UrlTargetRemoved(d);
    LinkHeadKeptByUrlPass(w, u);
    LinkHeadCleansToText(w, ['['] + w + [']', '('], u);
  }

  /** The passes after the first leave the text of a link head. */
  lemma LinkHeadCleansToText(w: string, h: string, u: string)
    requires forall k :: 0 <= k < |w| ==> IsWordChar(w[k])
    requires h == ['['] + w + [']', '(']
    requires RemoveUrls(h + u) == h
    ensures CleanText(h + u) == w
  {
    LinkHeadKeptByLinkPass(w);
    LinkHeadKeptByCollapse(w);
    LinkHeadStripped(w);
    StripWithoutEdgeSpace(w);
    CleanTextPasses(h + u, h, h, w, w);
  }

  lemma UrlTargetRemoved(d: string)
    requires forall k :: 0 <= k < |d| ==> !IsSpace(d[k])
    ensures RemoveUrls("https://" + d + [')']) == []
  {
    var u := "https://" + d + [')'];
    UrlTargetLength(d);
    assert RemoveUrls(u) == RemoveUrls(u[|u|..]);
  }

  lemma UrlTargetLength(d: string)
    requires forall k :: 0 <= k < |d| ==> !IsSpace(d[k])
    ensures UrlLength("https://" + d + [')']) == 8 + |d| + 1
  {
    var u := "https://" + d + [')'];
    var t := d + [')'];
    assert u[8..] == t;
    forall k | 0 <= k < |t| ensures !IsSpace(t[k]) {
      if k < |d| {
        assert t[k] == d[k];
      }
    }
    NonSpaceRunOfWord(t, []);
    assert t + [] == t;
    assert u[..8] == "https://";
  }

  /** The head `[w](` of a link whose text is made of word characters holds no
      `)` and no whitespace, and no `:` before its `(`. */
  lemma LinkHeadChars(w: string)
    requires forall k :: 0 <= k < |w| ==> IsWordChar(w[k])
    ensures forall k :: 0 <= k < |w| + 3 ==>
      var c := (['['] + w + [']', '('])[k]; c != ')' && !IsSpace(c) && (k < |w| + 2 ==> c != ':')
  {
    var h := ['['] + w + [']', '('];
    forall k | 0 <= k < |h|
      ensures h[k] != ')' && !IsSpace(h[k]) && (k < |w| + 2 ==> h[k] != ':')
    {
      if 1 <= k <= |w| {
        assert h[k] == w[k - 1];
      }
    }
  }

  lemma LinkHeadKeptByUrlPass(w: string, u: string)
    requires forall k :: 0 <= k < |w| ==> IsWordChar(w[k])
    requires RemoveUrls(u) == []
    ensures RemoveUrls(['['] + w + [']', '('] + u) == ['['] + w + [']', '(']
  {
    var h := ['['] + w + [']', '('];
    var s := h + u;
    LinkHeadChars(w);
    forall i | 0 <= i < |h| ensures UrlLength(s[i..]) == 0 {
      assert forall k :: i <= k < |h| - 1 ==> s[k] == h[k];
      NoUrlBeforeParen(s, i, |h| - 1);
    }
    RemoveUrlsKeepsPrefix(s, 0, |h|);
    assert s[0..] == s && s[0..|h|] == h && s[|h|..] == u;
    assert h + [] == h;
  }

  lemma LinkHeadKeptByLinkPass(w: string)
    requires forall k :: 0 <= k < |w| ==> IsWordChar(w[k])
    ensures RemoveLinks(['['] + w + [']', '(']) == ['['] + w + [']', '(']
  {
    LinkHeadChars(w);
    RemoveLinksWithoutParen(['['] + w + [']', '(']);
  }

  lemma LinkHeadKeptByCollapse(w: string)
    requires forall k :: 0 <= k < |w| ==> IsWordChar(w[k])
    ensures CollapseSpaces(['['] + w + [']', '(']) == ['['] + w + [']', '(']
  {
    LinkHeadChars(w);
    CollapseWithoutSpace(['['] + w + [']', '(']);
  }

  lemma LinkHeadStripped(w: string)
    requires forall k :: 0 <= k < |w| ==> IsWordChar(w[k])
    ensures StripSpecial(['['] + w + [']', '(']) == w
  {
    StripSpecialConcat(['['] + w, [']', '(']);
    StripSpecialConcat(['['], w);
    StripSpecialOfKept(w);
    BracketsStripped();
  }

  lemma BracketsStripped()
    ensures StripSpecial(['[']) == [] && StripSpecial([']', '(']) == []
  {
    DroppedCharStripped('[', []);
    DroppedCharStripped('(', []);
    DroppedCharStripped(']', ['(']);
  }

  /** A dropped character in front of text that strips to nothing strips to nothing. */
  lemma DroppedCharStripped(c: char, t: string)
    requires !KeepChar(c) && StripSpecial(t) == []
    ensures StripSpecial([c] + t) == []
  {
    StripSpecialCons(c, t);
  }

  /** Outside its first branch, `clean_text` is the composition of the passes. */
  lemma CleanTextPasses(text: string, a: string, b: string, c: string, d: string)
    requires text != []
    requires RemoveLinks(RemoveUrls(text)) == a && CollapseSpaces(a) == b
    requires StripSpecial(b) == c && Strip(c) == d
    ensures CleanText(text) == d
  {
  }

  /** Text without `:` and `[` passes the first two passes unchanged. */
  lemma NoUrlOrLink(s: string)
    requires ':' !in s && '[' !in s
    ensures RemoveLinks(RemoveUrls(s)) == s
  {
    NoColonNoUrl(s);
    RemoveLinksWithoutBracket(s);
  }

  // The example below is taken one pass at a time.

  lemma CollapseWordCons(c: char, t: string)
    requires !IsSpace(c)
    ensures CollapseSpaces([c] + t) == [c] + CollapseSpaces(t)
  {
    assert ([c] + t)[1..] == t;
  }

  lemma CollapseSpacesCons(n: nat, t: string)
    requires 0 < n && |t| > 0 && !IsSpace(t[0])
    ensures CollapseSpaces(seq(n, _ => ' ') + t) == [' '] + CollapseSpaces(t)
  {
    var s := seq(n, _ => ' ') + t;
    assert SpaceRun(s) == n by {
      assert forall k :: 0 <= k < n ==> IsSpace(s[k]);
      assert !IsSpace(s[n]);
    }
    assert s[n..] == t;
  }

  /** A character followed by one space passes unchanged when a word follows. */
  lemma CollapseWordSpace(x: char, t: string)
    requires !IsSpace(x) && |t| > 0 && !IsSpace(t[0])
    ensures CollapseSpaces([x, ' '] + t) == [x, ' '] + CollapseSpaces(t)
  {
    CollapseOneSpace(t);
    PairCons(x, ' ', t);
    CollapseWordCons(x, [' '] + t);
    PairCons(x, ' ', CollapseSpaces(t));
  }

  /** One space in front of a word stays one space. */
  lemma CollapseOneSpace(t: string)
    requires |t| > 0 && !IsSpace(t[0])
    ensures CollapseSpaces([' '] + t) == [' '] + CollapseSpaces(t)
  {
    var u := [' '] + t;
    assert u[1..] == t;
    assert SpaceRun(u) == 1;
  }

  lemma CollapseFirstExample(x: char, c: char, y: char)
    requires !IsSpace(x) && !IsSpace(c) && !IsSpace(y)
    ensures CollapseSpaces([x, ' ', c, ' ', y]) == [x, ' ', c, ' ', y]
  {
    CollapseWordCons(y, []);
    assert [y] + [] == [y];
    CollapseWordSpace(c, [y]);
    var t := [c, ' '] + [y];
    assert t[0] == c;
    CollapseWordSpace(x, t);
    FirstExampleSplit(x, c, y);
  }

  lemma FirstExampleSplit(x: char, c: char, y: char)
    ensures [x, ' ', c, ' ', y] == [x, ' '] + ([c, ' '] + [y])
  {
  }

  lemma CollapseSecondExample(x: char, y: char)
    requires !IsSpace(x) && !IsSpace(y)
    ensures CollapseSpaces([x, ' ', ' ', y]) == [x, ' ', y]
  {
    CollapseWordCons(y, []);
    assert [y] + [] == [y];
    CollapseSpacesCons(2, [y]);
    assert seq(2, _ => ' ') + [y] == [' ', ' ', y];
    CollapseWordCons(x, [' ', ' ', y]);
    assert [x] + [' ', ' ', y] == [x, ' ', ' ', y];
  }

  lemma StripSpecialCons(c: char, s: string)
    ensures StripSpecial([c] + s) == (if KeepChar(c) then [c] else []) + StripSpecial(s)
  {
    assert ([c] + s)[1..] == s;
  }

  lemma StripSpecialFirstExample(x: char, c: char, y: char)
    requires IsWordChar(x) && IsWordChar(y) && !KeepChar(c)
    ensures StripSpecial([x, ' ', c, ' ', y]) == [x, ' ', ' ', y]
  {
    StripSpecialCons(y, []);
    StripSpecialCons(' ', [y]);
    StripSpecialCons(c, [' ', y]);
    StripSpecialCons(' ', [c, ' ', y]);
    StripSpecialCons(x, [' ', c, ' ', y]);
    assert [x, ' ', c, ' ', y] == [x] + [' ', c, ' ', y];
  }

  lemma StripSpecialSecondExample(x: char, y: char)
    requires IsWordChar(x) && IsWordChar(y)
    ensures StripSpecial([x, ' ', y]) == [x, ' ', y]
  {
    StripSpecialCons(y, []);
    StripSpecialCons(' ', [y]);
    StripSpecialCons(x, [' ', y]);
  }

  lemma StripFirstExample(x: char, y: char)
    requires IsWordChar(x) && IsWordChar(y)
    ensures Strip([x, ' ', ' ', y]) == [x, ' ', ' ', y]
  {
  }

  lemma StripSecondExample(x: char, y: char)
    requires IsWordChar(x) && IsWordChar(y)
    ensures Strip([x, ' ', y]) == [x, ' ', y]
  {
  }

  lemma UrlAndLinkFirstExample(x: char, c: char, y: char)
    requires IsWordChar(x) && IsWordChar(y)
    ensures RemoveLinks(RemoveUrls([x, ' ', c, ' ', y])) == [x, ' ', c, ' ', y]
  {
    var s := [x, ' ', c, ' ', y];
    NoPairAcrossSpaces(x, c, y, "://");
    NoPairAcrossSpaces(x, c, y, "](");
    RemoveUrlsWithoutScheme(s);
    RemoveLinksWithoutLinkEnd(s);
  }

  /** In `x c y` spaced out by single spaces, no two characters that are
      not spaces stand side by side, so no such pair occurs. */
  lemma NoPairAcrossSpaces(x: char, c: char, y: char, t: string)
    requires |t| >= 2 && t[0] != ' ' && t[1] != ' '
    ensures !Contains([x, ' ', c, ' ', y], t)
  {
    var s := [x, ' ', c, ' ', y];
    ContainsIff(s, t);
    if i :| OccursAt(s, t, i) {
      assert false;
    }
  }

  lemma UrlAndLinkSecondExample(x: char, y: char)
    requires IsWordChar(x) && IsWordChar(y)
    ensures RemoveLinks(RemoveUrls([x, ' ', ' ', y])) == [x, ' ', ' ', y]
  {
    NoUrlOrLink([x, ' ', ' ', y]);
  }

  lemma FirstRunPasses(x: char, c: char, y: char)
    requires IsWordChar(x) && IsWordChar(y) && !KeepChar(c)
    ensures RemoveLinks(RemoveUrls([x, ' ', c, ' ', y])) == [x, ' ', c, ' ', y]
    ensures CollapseSpaces([x, ' ', c, ' ', y]) == [x, ' ', c, ' ', y]
    ensures StripSpecial([x, ' ', c, ' ', y]) == [x, ' ', ' ', y]
    ensures Strip([x, ' ', ' ', y]) == [x, ' ', ' ', y]
  {
    UrlAndLinkFirstExample(x, c, y);
    CollapseFirstExample(x, c, y);
    StripSpecialFirstExample(x, c, y);
    StripFirstExample(x, y);
  }

  lemma SecondRunPasses(x: char, y: char)
    requires IsWordChar(x) && IsWordChar(y)
    ensures RemoveLinks(RemoveUrls([x, ' ', ' ', y])) == [x, ' ', ' ', y]
    ensures CollapseSpaces([x, ' ', ' ', y]) == [x, ' ', y]
    ensures StripSpecial([x, ' ', y]) == [x, ' ', y]
    ensures Strip([x, ' ', y]) == [x, ' ', y]
  {
    UrlAndLinkSecondExample(x, y);
    CollapseSecondExample(x, y);
    StripSpecialSecondExample(x, y);
    StripSecondExample(x, y);
  }

  lemma CleanTextFirstRun(x: char, c: char, y: char)
    requires IsWordChar(x) && IsWordChar(y) && !KeepChar(c)
    ensures CleanText([x, ' ', c, ' ', y]) == [x, ' ', ' ', y]
  {
    FirstRunPasses(x, c, y);
    CleanTextPasses([x, ' ', c, ' ', y], [x, ' ', c, ' ', y], [x, ' ', c, ' ', y],
      [x, ' ', ' ', y], [x, ' ', ' ', y]);
  }

  lemma CleanTextSecondRun(x: char, y: char)
    requires IsWordChar(x) && IsWordChar(y)
    ensures CleanText([x, ' ', ' ', y]) == [x, ' ', y]
  {
    SecondRunPasses(x, y);
    CleanTextPasses([x, ' ', ' ', y], [x, ' ', ' ', y], [x, ' ', y], [x, ' ', y], [x, ' ', y]);
  }

  /** `clean_text` is not idempotent: pass 3 runs before pass 4, so a character
      that pass 4 removes from between two spaces leaves a double space, which
      only a second run collapses. `"a @ b"` is one such input. */
  lemma CleanTextNotIdempotent(x: char, c: char, y: char)
    requires IsWordChar(x) && IsWordChar(y) && !KeepChar(c)
    ensures CleanText([x, ' ', c, ' ', y]) == [x, ' ', ' ', y]
    ensures CleanText(CleanText([x, ' ', c, ' ', y])) == [x, ' ', y]
  {
    CleanTextFirstRun(x, c, y);
    CleanTextSecondRun(x, y);
  }
}
