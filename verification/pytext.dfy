/** The handful of Python `str` operations the core relies on: `isspace`,
    `strip()`, `split()`, `split(sep)`, `replace(c, "")` and the substring
    test `pat in s`. */
module PyText {

  /** `str.isspace()` for one character: the characters Python treats as
      whitespace. */
  predicate IsSpace(c: char)
  {
    var n := c as int;
    || 0x09 <= n <= 0x0D || 0x1C <= n <= 0x20 || n == 0x85 || n == 0xA0 || n == 0x1680
    || 0x2000 <= n <= 0x200A || n == 0x2028 || n == 0x2029 || n == 0x202F || n == 0x205F || n == 0x3000
  }

  predicate NoSpace(s: string)
  {
    forall i :: 0 <= i < |s| ==> !IsSpace(s[i])
  }

  // ---------------------------------------------------------------- substring

  /** `pat` occurs in `s` starting at index `i`. */
  predicate OccursAt(s: string, pat: string, i: nat)
  {
    i + |pat| <= |s| && s[i..i + |pat|] == pat
  }

  /** Python's `pat in s`. */
  predicate Contains(s: string, pat: string)
    decreases |s|
  {
    if |pat| > |s| then false
    else s[..|pat|] == pat || (|s| > 0 && Contains(s[1..], pat))
  }

  /** `Contains` holds exactly when some position of `s` starts `pat`. */
  lemma {:induction false} ContainsIff(s: string, pat: string)
    ensures Contains(s, pat) <==> exists i: nat :: OccursAt(s, pat, i)
  {
    if |pat| > |s| {
      forall i: nat
        ensures !OccursAt(s, pat, i)
      {
      }
    } else if s[..|pat|] == pat {
      assert OccursAt(s, pat, 0);
    } else {
      assert |s| > 0;
      ContainsIff(s[1..], pat);
      if Contains(s[1..], pat) {
        var i: nat :| OccursAt(s[1..], pat, i);
        assert s[i + 1..i + 1 + |pat|] == s[1..][i..i + |pat|];
        assert OccursAt(s, pat, i + 1);
      } else {
        forall i: nat | OccursAt(s, pat, i)
          ensures false
        {
          if i > 0 {
            assert s[1..][i - 1..i - 1 + |pat|] == s[i..i + |pat|];
            assert OccursAt(s[1..], pat, i - 1);
          }
        }
      }
    }
  }

  // -------------------------------------------------------------------- strip

  /** Length of the leading run of whitespace. */
  function LeadingSpace(s: string): (k: nat)
    ensures k <= |s|
    ensures forall j :: 0 <= j < k ==> IsSpace(s[j])
    ensures k < |s| ==> !IsSpace(s[k])
    decreases |s|
  {
    if |s| > 0 && IsSpace(s[0]) then
      var k := 1 + LeadingSpace(s[1..]);
      assert forall j :: 1 <= j < k ==> s[j] == s[1..][j - 1];
      k
    else 0
  }

  /** Length of the trailing run of whitespace. */
  function TrailingSpace(s: string): (k: nat)
    ensures k <= |s|
    ensures forall j :: |s| - k <= j < |s| ==> IsSpace(s[j])
    ensures k < |s| ==> !IsSpace(s[|s| - k - 1])
    decreases |s|
  {
    if |s| > 0 && IsSpace(s[|s| - 1]) then
      var k := 1 + TrailingSpace(s[..|s| - 1]);
      assert forall j :: |s| - k <= j < |s| - 1 ==> s[j] == s[..|s| - 1][j];
      k
    else 0
  }

  /** `str.strip()`: the part of `s` after its leading whitespace and before
      its trailing whitespace; it neither starts nor ends with whitespace. */
  function Strip(s: string): (r: string)
    ensures var i := LeadingSpace(s);
      && i + |r| <= |s|
      && (forall k :: 0 <= k < |r| ==> r[k] == s[i + k])
      && (forall k :: i + |r| <= k < |s| ==> IsSpace(s[k]))
    ensures |r| > 0 ==> !IsSpace(r[0]) && !IsSpace(r[|r| - 1])
  {
    var i := LeadingSpace(s);
    var rest := s[i..];
    var b := TrailingSpace(rest);
    assert forall k :: |rest| - b <= k < |rest| ==> rest[k] == s[i + k];
    rest[..|rest| - b]
  }

  /** Stripping twice strips nothing more. */
  lemma StripIdempotent(s: string)
    ensures Strip(Strip(s)) == Strip(s)
  {
    var r := Strip(s);
    if |r| > 0 {
      assert LeadingSpace(r) == 0;
      assert TrailingSpace(r) == 0;
    }
  }

  /** A text that neither starts nor ends with whitespace is its own
      `strip()`. */
  lemma StripUnpadded(s: string)
    requires |s| > 0 && !IsSpace(s[0]) && !IsSpace(s[|s| - 1])
    ensures Strip(s) == s
  {
    assert LeadingSpace(s) == 0;
    assert TrailingSpace(s) == 0;
  }

  // -------------------------------------------------------------- split()

  /** Length of the leading run of non-whitespace characters. */
  function WordLength(s: string): (k: nat)
    ensures k <= |s|
    ensures NoSpace(s[..k])
    ensures k < |s| ==> IsSpace(s[k])
    decreases |s|
  {
    if |s| == 0 || IsSpace(s[0]) then 0
    else
      var k := 1 + WordLength(s[1..]);
      assert s[..k] == [s[0]] + s[1..][..k - 1];
      k
  }

  /** `str.split()` with no separator: the maximal runs of non-whitespace. */
  function SplitWhitespace(s: string): (r: seq<string>)
    decreases |s|
  {
    if |s| == 0 then []
    else if IsSpace(s[0]) then SplitWhitespace(s[1..])
    else
      var k := WordLength(s);
      [s[..k]] + SplitWhitespace(s[k..])
  }

  /** The non-whitespace characters of `s`, in order. */
  function WithoutSpace(s: string): string
  {
    if |s| == 0 then "" else (if IsSpace(s[0]) then "" else [s[0]]) + WithoutSpace(s[1..])
  }

  function Concat(ws: seq<string>): string
  {
    if |ws| == 0 then "" else ws[0] + Concat(ws[1..])
  }

  lemma {:induction false} WithoutSpaceAppend(a: string, b: string)
    ensures WithoutSpace(a + b) == WithoutSpace(a) + WithoutSpace(b)
  {
    if |a| == 0 {
      assert a + b == b;
    } else {
      assert (a + b)[1..] == a[1..] + b;
      WithoutSpaceAppend(a[1..], b);
    }
  }

  lemma {:induction false} WithoutSpaceOfNoSpace(a: string)
    requires NoSpace(a)
    ensures WithoutSpace(a) == a
  {
    if |a| > 0 {
      WithoutSpaceOfNoSpace(a[1..]);
    }
  }

  /** `split()` loses only whitespace: every field is non-empty and free of
      whitespace, and the fields laid end to end are the non-whitespace
      characters of the line, in order. */
  lemma {:induction false} SplitWhitespaceFields(s: string)
    ensures forall j :: 0 <= j < |SplitWhitespace(s)| ==> |SplitWhitespace(s)[j]| > 0 && NoSpace(SplitWhitespace(s)[j])
    ensures Concat(SplitWhitespace(s)) == WithoutSpace(s)
    decreases |s|
  {
    if |s| == 0 {
    } else if IsSpace(s[0]) {
      SplitWhitespaceFields(s[1..]);
    } else {
      var k := WordLength(s);
      SplitWhitespaceFields(s[k..]);
      assert s == s[..k] + s[k..];
      WithoutSpaceAppend(s[..k], s[k..]);
      WithoutSpaceOfNoSpace(s[..k]);
      var r := SplitWhitespace(s);
      assert r[1..] == SplitWhitespace(s[k..]);
    }
  }

  // ---------------------------------------------------------- split(sep)

  /** `str.split(sep)` for a one-character separator. */
  function Split(s: string, sep: char): (r: seq<string>)
    ensures |r| >= 1
    decreases |s|
  {
    if |s| == 0 then [""]
    else
      var rest := Split(s[1..], sep);
      if s[0] == sep then [""] + rest else [[s[0]] + rest[0]] + rest[1..]
  }

  /** `s.index(c)` when `c` occurs, else the length of `s`: the position of
      the first `c`. */
  function FirstIndex(s: string, c: char): (k: nat)
    ensures k <= |s|
    ensures forall j :: 0 <= j < k ==> s[j] != c
    ensures k < |s| ==> s[k] == c
  {
    if |s| == 0 then 0
    else if s[0] == c then 0
    else 1 + FirstIndex(s[1..], c)
  }

  /** The first piece of `split` runs up to the first separator, and the
      remaining pieces are the split of what follows it. */
  lemma {:induction false} SplitFirst(s: string, c: char)
    ensures Split(s, c)[0] == s[..FirstIndex(s, c)]
    ensures FirstIndex(s, c) < |s| ==> Split(s, c)[1..] == Split(s[FirstIndex(s, c) + 1..], c)
    decreases |s|
  {
    if |s| > 0 && s[0] != c {
      SplitFirst(s[1..], c);
      var k := FirstIndex(s[1..], c);
      assert s[..k + 1] == [s[0]] + s[1..][..k];
      if k < |s| - 1 {
        assert s[1..][k + 1..] == s[k + 2..];
      }
    }
  }

  /** `sep.join(parts)`. */
  function Join(parts: seq<string>, sep: char): string
    requires |parts| >= 1
  {
    if |parts| == 1 then parts[0] else parts[0] + [sep] + Join(parts[1..], sep)
  }

  function Count(s: string, c: char): nat
  {
    if |s| == 0 then 0 else (if s[0] == c then 1 else 0) + Count(s[1..], c)
  }

  /** `split` cuts at every separator and nowhere else: there is one more
      piece than separators, no piece holds the separator, and joining the
      pieces with it gives the text back. */
  lemma {:induction false} SplitJoin(s: string, sep: char)
    ensures |Split(s, sep)| == Count(s, sep) + 1
    ensures forall j :: 0 <= j < |Split(s, sep)| ==> sep !in Split(s, sep)[j]
    ensures Join(Split(s, sep), sep) == s
    decreases |s|
  {
    if |s| > 0 {
      SplitJoin(s[1..], sep);
      var rest := Split(s[1..], sep);
      if s[0] == sep {
        assert Split(s, sep)[1..] == rest;
        assert s == [sep] + s[1..];
      } else {
        var r := Split(s, sep);
        assert r[1..] == rest[1..];
        if |rest| == 1 {
          assert s == [s[0]] + s[1..];
        } else {
          assert Join(rest, sep) == rest[0] + [sep] + Join(rest[1..], sep);
          assert s == [s[0]] + s[1..];
        }
      }
    }
  }

  // --------------------------------------------------------- replace(c, "")

  /** `s.replace(c, "")`: every occurrence of `c` removed. */
  function RemoveChar(s: string, c: char): (r: string)
    ensures c !in r
    ensures |r| == |s| - Count(s, c)
  {
    if |s| == 0 then "" else (if s[0] == c then "" else [s[0]]) + RemoveChar(s[1..], c)
  }

  /** Removing a character that does not occur changes nothing. */
  lemma {:induction false} RemoveAbsentChar(s: string, c: char)
    requires c !in s
    ensures RemoveChar(s, c) == s
  {
    if |s| > 0 {
      RemoveAbsentChar(s[1..], c);
    }
  }
}
