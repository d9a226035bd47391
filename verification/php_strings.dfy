/**
 * The PHP string built-ins the core relies on, restated over `seq<char>`:
 * `trim`, `strrchr`/`strpos`-style searches, `explode`, ASCII `strtolower`
 * and `str_replace` with an empty replacement.
 */
module PhpStrings {

  /** The characters `trim()` strips when no character list is given. */
  predicate IsTrimChar(c: char)
  {
    c == ' ' || c == '\t' || c == '\n' || c == '\r' || c == '\0' || c == '\U{000B}'
  }

  /** The first position at or after `i` that does not hold a trim character (or `|s|`). */
  function SkipTrimFrom(s: string, i: nat): (j: nat)
    requires i <= |s|
    ensures i <= j <= |s| && (j == |s| || !IsTrimChar(s[j]))
    ensures forall k :: i <= k < j ==> IsTrimChar(s[k])
    decreases |s| - i
  {
    if i < |s| && IsTrimChar(s[i]) then SkipTrimFrom(s, i + 1) else i
  }

  /** The end of `s[..j]` once its trailing trim characters are dropped. */
  function SkipTrimBefore(s: string, j: nat): (i: nat)
    requires j <= |s|
    ensures i <= j && (i == 0 || !IsTrimChar(s[i - 1]))
    ensures forall k :: i <= k < j ==> IsTrimChar(s[k])
  {
    if j > 0 && IsTrimChar(s[j - 1]) then SkipTrimBefore(s, j - 1) else j
  }

  /** `ltrim($s)`: the suffix left after dropping the leading run of trim characters. */
  function TrimLeft(s: string): (r: string)
    ensures |r| <= |s| && r == s[|s| - |r|..]
    ensures |r| == 0 || !IsTrimChar(r[0])
    ensures forall i :: 0 <= i < |s| - |r| ==> IsTrimChar(s[i])
  {
    s[SkipTrimFrom(s, 0)..]
  }

  /** `rtrim($s)`: the prefix left after dropping the trailing run of trim characters. */
  function TrimRight(s: string): (r: string)
    ensures |r| <= |s| && r == s[..|r|]
    ensures |r| == 0 || !IsTrimChar(r[|r| - 1])
    ensures forall i :: |r| <= i < |s| ==> IsTrimChar(s[i])
  {
    s[..SkipTrimBefore(s, |s|)]
  }

  /** `trim($s)`: `s` with the trim characters at both ends dropped. */
  function Trim(s: string): (r: string)
    ensures |r| <= |s|
    ensures |r| == 0 || (!IsTrimChar(r[0]) && !IsTrimChar(r[|r| - 1]))
  {
    TrimRight(TrimLeft(s))
  }

  /**
   * `trim($s)` is the infix of `s` left between a leading and a trailing run
   * of trim characters.
   */
  lemma TrimIsInfix(s: string)
    ensures var r := Trim(s); var a := |s| - |TrimLeft(s)|;
              && a + |r| <= |s| && s[a..a + |r|] == r
              && (forall i :: 0 <= i < a ==> IsTrimChar(s[i]))
              && (forall i :: a + |r| <= i < |s| ==> IsTrimChar(s[i]))
  {
    var l := TrimLeft(s);
    InfixBetweenRuns(s, l, TrimRight(l));
  }

  /** A prefix `r` of a suffix `l` of `s`, each cut off by trim characters, is a slice of `s` between two runs of them. */
  lemma InfixBetweenRuns(s: string, l: string, r: string)
    requires |l| <= |s| && l == s[|s| - |l|..]
    requires |r| <= |l| && r == l[..|r|]
    requires forall i :: 0 <= i < |s| - |l| ==> IsTrimChar(s[i])
    requires forall i :: |r| <= i < |l| ==> IsTrimChar(l[i])
    ensures var a := |s| - |l|;
            && a + |r| <= |s| && s[a..a + |r|] == r
            && (forall i :: 0 <= i < a ==> IsTrimChar(s[i]))
            && (forall i :: a + |r| <= i < |s| ==> IsTrimChar(s[i]))
  {
    var a := |s| - |l|;
    forall i | a + |r| <= i < |s|
      ensures IsTrimChar(s[i])
    {
      assert s[i] == l[i - a];
    }
  }

  /** Every character of `trim($s)` occurs in `s`. */
  lemma TrimKeepsOnlyInputChars(s: string)
    ensures forall c :: c in Trim(s) ==> c in s
  {
    TrimIsInfix(s);
    InfixChars(s, |s| - |TrimLeft(s)|, Trim(s));
  }

  /** The characters of a slice of `s` occur in `s`. */
  lemma InfixChars(s: string, a: nat, r: string)
    requires a + |r| <= |s| && s[a..a + |r|] == r
    ensures forall c :: c in r ==> c in s
  {
    forall c | c in r
      ensures c in s
    {
      var k :| 0 <= k < |r| && r[k] == c;
      assert s[a + k] == c;
    }
  }

  /** A string that neither starts nor ends with a trim character is left alone by `trim`. */
  lemma TrimUntrimmed(s: string)
    requires |s| == 0 || (!IsTrimChar(s[0]) && !IsTrimChar(s[|s| - 1]))
    ensures Trim(s) == s
  {
  }

  /** The position of the first `c` at or after `i`. */
  function IndexFrom(s: string, c: char, i: nat): (k: nat)
    requires i <= |s| && c in s[i..]
    ensures i <= k < |s| && s[k] == c
    ensures forall m :: i <= m < k ==> s[m] != c
    decreases |s| - i
  {
    if s[i] == c then i
    else
      assert s[i + 1..] == s[i..][1..];
      IndexFrom(s, c, i + 1)
  }

  /** The position of the last `c` before `j`. */
  function IndexBefore(s: string, c: char, j: nat): (k: nat)
    requires j <= |s| && c in s[..j]
    ensures k < j && s[k] == c
    ensures forall m :: k < m < j ==> s[m] != c
  {
    if s[j - 1] == c then j - 1
    else
      assert s[..j - 1] + [s[j - 1]] == s[..j];
      IndexBefore(s, c, j - 1)
  }

  /** The position of the first `c` in `s` (`strpos` for one character). */
  function FirstIndex(s: string, c: char): (i: nat)
    requires c in s
    ensures i < |s| && s[i] == c && c !in s[..i]
  {
    assert s[0..] == s;
    IndexFrom(s, c, 0)
  }

  /** The position of the last `c` in `s` (what `strrchr` searches for). */
  function LastIndex(s: string, c: char): (i: nat)
    requires c in s
    ensures i < |s| && s[i] == c && c !in s[i + 1..]
  {
    assert s[..|s|] == s;
    IndexBefore(s, c, |s|)
  }

  /** `implode($sep, $parts)` for a one-character separator. */
  function Join(sep: char, parts: seq<string>): string
  {
    if |parts| == 0 then ""
    else if |parts| == 1 then parts[0]
    else parts[0] + [sep] + Join(sep, parts[1..])
  }

  /** `explode($sep, $s)` for a one-character separator: the pieces between separators. */
  function Explode(sep: char, s: string): (parts: seq<string>)
    ensures |parts| >= 1
    ensures forall i :: 0 <= i < |parts| ==> sep !in parts[i]
    ensures Join(sep, parts) == s
    decreases |s|
  {
    if sep !in s then [s]
    else
      var i := FirstIndex(s, sep);
      var rest := Explode(sep, s[i + 1..]);
      assert s == s[..i] + [sep] + s[i + 1..];
      [s[..i]] + rest
  }

  /** Splitting `a + sep + b` where neither side holds `sep` yields exactly the two sides. */
  lemma {:induction false} ExplodeTwo(sep: char, a: string, b: string)
    requires sep !in a && sep !in b
    ensures Explode(sep, a + [sep] + b) == [a, b]
  {
    var s := a + [sep] + b;
    assert s[|a|] == sep;
    var i := FirstIndex(s, sep);
    assert s[..i] == a;
    assert s[i + 1..] == b;
  }

  /** `strtolower` on one character (ASCII letters only). */
  function LowerChar(c: char): char
  {
    if 'A' <= c <= 'Z' then (c as int + 32) as char else c
  }

  /** `strtolower($s)`: every ASCII upper-case letter replaced by its lower-case form. */
  function ToLower(s: string): (r: string)
    ensures |r| == |s|
    ensures forall i :: 0 <= i < |s| ==> r[i] == LowerChar(s[i])
  {
    seq(|s|, i requires 0 <= i < |s| => LowerChar(s[i]))
  }

  /**
   * One `str_replace($p, '', $s)` pass: scans `s` left to right and deletes
   * every non-overlapping occurrence of `p`; text that a deletion brings
   * together is not rescanned. PHP skips an empty search string.
   */
  function RemoveAll(s: string, p: string): (r: string)
    ensures |r| <= |s|
    decreases |s|
  {
    if |p| == 0 || |s| == 0 then s
    else if p <= s then RemoveAll(s[|p|..], p)
    else [s[0]] + RemoveAll(s[1..], p)
  }

  /** A pass only deletes: the output's characters are drawn from the input, and a one-character search leaves none of itself. */
  lemma {:induction false} RemoveAllOnlyDeletes(s: string, p: string)
    ensures forall c :: c in RemoveAll(s, p) ==> c in s
    ensures |p| == 1 ==> p[0] !in RemoveAll(s, p)
    decreases |s|
  {
    if |p| == 0 || |s| == 0 {
    } else if p <= s {
      RemoveAllOnlyDeletes(s[|p|..], p);
      assert forall c :: c in s[|p|..] ==> c in s;
    } else {
      RemoveAllOnlyDeletes(s[1..], p);
      assert forall c :: c in s[1..] ==> c in s;
    }
  }

  /** A pass never changes a string that lacks some character of the search string. */
  lemma {:induction false} RemoveAllAbsent(s: string, p: string, k: nat)
    requires k < |p| && p[k] !in s
    ensures RemoveAll(s, p) == s
    decreases |s|
  {
    if |s| > 0 {
      assert !(p <= s) by {
        if |p| <= |s| {
          assert s[k] in s;
        }
      }
      assert p[k] !in s[1..] by {
        assert forall j :: 0 <= j < |s[1..]| ==> s[1..][j] == s[j + 1];
      }
      RemoveAllAbsent(s[1..], p, k);
      assert s == [s[0]] + s[1..];
    }
  }

  /** A leading occurrence of the pattern is deleted and the scan resumes after it. */
  lemma RemoveAllLeading(p: string, s: string)
    requires |p| > 0
    ensures RemoveAll(p + s, p) == RemoveAll(s, p)
  {
    assert p <= p + s;
    assert (p + s)[|p|..] == s;
  }

  /** Characters before the first possible match are copied through unchanged. */
  lemma {:induction false} RemoveAllSkip(a: string, s: string, p: string)
    requires |p| > 0 && p[0] !in a
    ensures RemoveAll(a + s, p) == a + RemoveAll(s, p)
    decreases |a|
  {
    if |a| == 0 {
      assert a + s == s;
    } else {
      var t := a + s;
      assert t[0] == a[0] && t[1..] == a[1..] + s;
      assert !(p <= t) by {
        assert a[0] in a;
      }
      assert RemoveAll(t, p) == [t[0]] + RemoveAll(t[1..], p);
      assert p[0] !in a[1..] by {
        assert forall c :: c in a[1..] ==> c in a;
      }
      RemoveAllSkip(a[1..], s, p);
      assert a == [a[0]] + a[1..];
    }
  }

  /** `a` is obtained from `b` by deleting characters: `a`'s characters appear in `b` in the same order. */
  predicate IsSubseq(a: string, b: string)
    decreases |b|
  {
    |a| == 0 || (|b| > 0 && ((a[0] == b[0] && IsSubseq(a[1..], b[1..])) || IsSubseq(a, b[1..])))
  }

  lemma {:induction false} SubseqRefl(s: string)
    ensures IsSubseq(s, s)
    decreases |s|
  {
    if |s| > 0 {
      SubseqRefl(s[1..]);
    }
  }

  /** Deleting characters twice is deleting characters. */
  lemma {:induction false} SubseqTrans(a: string, b: string, c: string)
    requires IsSubseq(a, b) && IsSubseq(b, c)
    ensures IsSubseq(a, c)
    decreases |c|
  {
    if |a| > 0 {
      if IsSubseq(b, c[1..]) {
        SubseqTrans(a, b, c[1..]);
      } else if a[0] == b[0] && IsSubseq(a[1..], b[1..]) {
        SubseqTrans(a[1..], b[1..], c[1..]);
      } else {
        SubseqTrans(a, b[1..], c[1..]);
      }
    }
  }

  /** A suffix is a subsequence. */
  lemma {:induction false} SubseqDrop(s: string, k: nat)
    requires k <= |s|
    ensures IsSubseq(s[k..], s)
    decreases k
  {
    if k == 0 {
      assert s[k..] == s;
      SubseqRefl(s);
    } else {
      assert s[1..][k - 1..] == s[k..];
      SubseqDrop(s[1..], k - 1);
    }
  }

  /** A prefix is a subsequence. */
  lemma {:induction false} SubseqTake(s: string, k: nat)
    requires k <= |s|
    ensures IsSubseq(s[..k], s)
    decreases |s|
  {
    if k > 0 {
      assert s[..k][0] == s[0] && s[..k][1..] == s[1..][..k - 1];
      SubseqTake(s[1..], k - 1);
    }
  }

  /** A `str_replace` pass with an empty replacement only deletes characters, keeping the order of the rest. */
  lemma {:induction false} RemoveAllSubseq(s: string, p: string)
    ensures IsSubseq(RemoveAll(s, p), s)
    decreases |s|
  {
    if |p| == 0 || |s| == 0 {
      SubseqRefl(s);
    } else if p <= s {
      RemoveAllSubseq(s[|p|..], p);
      SubseqDrop(s, |p|);
      SubseqTrans(RemoveAll(s, p), s[|p|..], s);
    } else {
      var r := RemoveAll(s, p);
      assert r[0] == s[0] && r[1..] == RemoveAll(s[1..], p);
      RemoveAllSubseq(s[1..], p);
    }
  }

  /** `trim` only deletes characters. */
  lemma TrimSubseq(s: string)
    ensures IsSubseq(Trim(s), s)
  {
    var a := |s| - |TrimLeft(s)|;
    var r := Trim(s);
    TrimIsInfix(s);
    assert s[a..][..|r|] == r;
    SubseqTake(s[a..], |r|);
    SubseqDrop(s, a);
    SubseqTrans(r, s[a..], s);
  }
}
