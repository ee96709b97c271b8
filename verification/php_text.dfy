/**
  The few PHP string primitives the mydumper driver relies on, with the
  semantics PHP gives them: `empty()` on a string, `implode`, and
  `str_replace` with a single search string.
 */
module PhpText {

  /** PHP's `empty()` applied to a string: both "" and "0" count as empty. */
  predicate PhpEmpty(s: string) {
    s == "" || s == "0"
  }

  predicate StartsWith(s: string, prefix: string) {
    |prefix| <= |s| && s[..|prefix|] == prefix
  }

  predicate EndsWith(s: string, suffix: string) {
    |suffix| <= |s| && s[|s| - |suffix|..] == suffix
  }

  /** No string of `parts` contains the character `c`. */
  predicate CharFree(c: char, parts: seq<string>) {
    forall t :: t in parts ==> c !in t
  }

  /** PHP's `implode(sep, parts)`. */
  function Join(parts: seq<string>, sep: string): string
    decreases |parts|
  {
    if |parts| == 0 then ""
    else if |parts| == 1 then parts[0]
    else parts[0] + sep + Join(parts[1..], sep)
  }

  /**
    PHP's `explode(c, s)` for a one-character separator: the pieces of `s`
    between occurrences of `c`. It serves as the decoder of `Join`.
   */
  function Split(s: string, c: char): (r: seq<string>)
    ensures |r| > 0
    decreases |s|
  {
    if |s| == 0 then [""]
    else
      var rest := Split(s[1..], c);
      if s[0] == c then [""] + rest else [[s[0]] + rest[0]] + rest[1..]
  }

  /** `n` occurs somewhere in `s` as a contiguous substring. */
  predicate Occurs(n: string, s: string)
    decreases |s|
  {
    |n| <= |s| && (s[..|n|] == n || (|s| > 0 && Occurs(n, s[1..])))
  }

  /**
    PHP's `str_replace(needle, rep, s)`: scanning left to right, every
    non-overlapping occurrence of `needle` is replaced by `rep`; the
    inserted text is not scanned again. An empty needle leaves `s` as it is.
   */
  function ReplaceAll(s: string, needle: string, rep: string): string
    decreases |s|
  {
    if |needle| == 0 || |s| < |needle| then s
    else if s[..|needle|] == needle then rep + ReplaceAll(s[|needle|..], needle, rep)
    else [s[0]] + ReplaceAll(s[1..], needle, rep)
  }

  /** A character that neither the separator nor any part contains is absent from the joined string. */
  lemma {:induction false} JoinCharFree(parts: seq<string>, sep: string, c: char)
    requires c !in sep && CharFree(c, parts)
    ensures c !in Join(parts, sep)
    decreases |parts|
  {
    if |parts| > 1 {
      assert parts[0] in parts;
      assert CharFree(c, parts[1..]) by {
        forall t | t in parts[1..] ensures c !in t {
          assert t in parts;
        }
      }
      JoinCharFree(parts[1..], sep, c);
    } else if |parts| == 1 {
      assert parts[0] in parts;
    }
  }

  lemma {:induction false} SplitWithoutSeparator(a: string, c: char)
    requires c !in a
    ensures Split(a, c) == [a]
    decreases |a|
  {
    if |a| > 0 {
      SplitWithoutSeparator(a[1..], c);
      assert [a[0]] + a[1..] == a;
    }
  }

  lemma {:induction false} SplitAtFirstSeparator(a: string, b: string, c: char)
    requires c !in a
    ensures Split(a + [c] + b, c) == [a] + Split(b, c)
    decreases |a|
  {
    var s := a + [c] + b;
    if |a| == 0 {
      assert s[1..] == b;
    } else {
      assert s[1..] == a[1..] + [c] + b;
      SplitAtFirstSeparator(a[1..], b, c);
      assert [a[0]] + a[1..] == a;
    }
  }

  /**
    `implode` with a one-character separator is decoded by `explode` as long
    as no part contains the separator: the joined list can be read back.
   */
  lemma {:induction false} SplitJoin(parts: seq<string>, c: char)
    requires |parts| > 0 && CharFree(c, parts)
    ensures Split(Join(parts, [c]), c) == parts
    decreases |parts|
  {
    assert parts[0] in parts;
    if |parts| == 1 {
      SplitWithoutSeparator(parts[0], c);
    } else {
      assert CharFree(c, parts[1..]) by {
        forall t | t in parts[1..] ensures c !in t {
          assert t in parts;
        }
      }
      SplitJoin(parts[1..], c);
      SplitAtFirstSeparator(parts[0], Join(parts[1..], [c]), c);
      assert parts[0] + [c] + Join(parts[1..], [c]) == Join(parts, [c]);
      assert [parts[0]] + parts[1..] == parts;
    }
  }

  /** A needle cannot occur where its first character does not. */
  lemma {:induction false} AbsentFirstChar(n: string, s: string)
    requires |n| > 0 && n[0] !in s
    ensures !Occurs(n, s)
    decreases |s|
  {
    if |n| <= |s| {
      assert s[..|n|][0] == s[0];
      AbsentFirstChar(n, s[1..]);
    }
  }

  /** A string in which the needle does not occur is returned unchanged. */
  lemma {:induction false} ReplaceAbsent(s: string, needle: string, rep: string)
    requires !Occurs(needle, s)
    ensures ReplaceAll(s, needle, rep) == s
    decreases |s|
  {
    if |needle| > 0 && |s| >= |needle| {
      ReplaceAbsent(s[1..], needle, rep);
      assert [s[0]] + s[1..] == s;
    }
  }

  /** Replacing a needle by itself changes nothing. */
  lemma {:induction false} ReplaceIdentity(s: string, needle: string)
    ensures ReplaceAll(s, needle, needle) == s
    decreases |s|
  {
    if |needle| > 0 && |s| >= |needle| {
      if s[..|needle|] == needle {
        ReplaceIdentity(s[|needle|..], needle);
        assert s[..|needle|] + s[|needle|..] == s;
      } else {
        ReplaceIdentity(s[1..], needle);
        assert [s[0]] + s[1..] == s;
      }
    }
  }

  /** An occurrence at the front of `a + [c] + b` lies inside `a` when the needle lacks `c`. */
  lemma MatchStaysLeft(a: string, c: char, b: string, needle: string)
    requires c !in needle
    requires |needle| <= |a| + 1 + |b| && (a + [c] + b)[..|needle|] == needle
    ensures |needle| <= |a| && a[..|needle|] == needle
  {
    var s := a + [c] + b;
    assert s[|a|] == c;
    assert forall i | 0 <= i < |needle| :: s[i] == needle[i] && needle[i] in needle;
    assert a[..|needle|] == s[..|needle|];
  }

  /**
    A character that the needle does not contain splits the replacement:
    no occurrence can straddle it, so both sides are rewritten independently.
   */
  lemma {:induction false} ReplaceAround(a: string, c: char, b: string, needle: string, rep: string)
    requires c !in needle
    ensures ReplaceAll(a + [c] + b, needle, rep)
         == ReplaceAll(a, needle, rep) + [c] + ReplaceAll(b, needle, rep)
    decreases |a|
  {
    var s := a + [c] + b;
    var k := |needle|;
    if k == 0 || |s| < k {
    } else if s[..k] == needle {
      MatchStaysLeft(a, c, b, needle);
      assert s[k..] == a[k..] + [c] + b;
      ReplaceAround(a[k..], c, b, needle, rep);
    } else if |a| == 0 {
      assert s[1..] == b;
    } else {
      assert s[1..] == a[1..] + [c] + b;
      ReplaceAround(a[1..], c, b, needle, rep);
      ReplaceFront(a, needle, rep);
    }
  }

  /** One step of `ReplaceAll` on a non-empty string whose front is not a match. */
  lemma ReplaceFront(a: string, needle: string, rep: string)
    requires |a| > 0 && |needle| > 0
    requires |needle| <= |a| ==> a[..|needle|] != needle
    ensures ReplaceAll(a, needle, rep) == [a[0]] + ReplaceAll(a[1..], needle, rep)
  {
    if |a| < |needle| {
      ReplaceShort(a[1..], needle, rep);
      assert [a[0]] + a[1..] == a;
    }
  }

  lemma ReplaceShort(s: string, needle: string, rep: string)
    requires |s| < |needle|
    ensures ReplaceAll(s, needle, rep) == s
  {
  }

  /** Replacement never introduces a character that neither the subject nor the replacement has. */
  lemma {:induction false} ReplaceCharFree(s: string, needle: string, rep: string, c: char)
    requires c !in s && c !in rep
    ensures c !in ReplaceAll(s, needle, rep)
    decreases |s|
  {
    if |needle| > 0 && |s| >= |needle| {
      if s[..|needle|] == needle {
        assert forall i | 0 <= i < |s[|needle|..]| :: s[|needle|..][i] == s[|needle| + i];
        ReplaceCharFree(s[|needle|..], needle, rep, c);
      } else {
        assert forall i | 0 <= i < |s[1..]| :: s[1..][i] == s[1 + i];
        ReplaceCharFree(s[1..], needle, rep, c);
      }
    }
  }
}
