/**
 * The JavaScript string methods the pages rely on: `toLowerCase`, `includes`,
 * `startsWith` and `split` with a one-character separator.
 */
module Text {

  /** Lower-cases an ASCII capital letter; every other character is kept. */
  function LowerChar(c: char): char {
    if 'A' <= c <= 'Z' then (c as int + 32) as char else c
  }

  /** `toLowerCase`, restricted to ASCII letters. */
  function Lower(s: string): (r: string)
    ensures |r| == |s|
    ensures forall i :: 0 <= i < |s| ==> r[i] == LowerChar(s[i])
  {
    seq(|s|, i requires 0 <= i < |s| => LowerChar(s[i]))
  }

  /** `s.startsWith(prefix)`, compared character by character. */
  function StartsWith(s: string, prefix: string): (r: bool)
    ensures r <==> |prefix| <= |s| && s[..|prefix|] == prefix
    decreases |prefix|
  {
    if |prefix| == 0 then true
    else if |s| == 0 then false
    else
      s[0] == prefix[0] && StartsWith(s[1..], prefix[1..])
  }

  /** `needle` occurs in `haystack` starting at offset `i`. */
  predicate OccursAt(haystack: string, needle: string, i: int) {
    0 <= i && i + |needle| <= |haystack| && haystack[i..i + |needle|] == needle
  }

  /** An occurrence past the first character is an occurrence in the rest of the haystack. */
  lemma OccursShift(haystack: string, needle: string)
    requires |haystack| > 0
    ensures OccursAt(haystack, needle, 0) <==> StartsWith(haystack, needle)
    ensures forall i :: i > 0 ==> (OccursAt(haystack, needle, i) <==> OccursAt(haystack[1..], needle, i - 1))
  {
    forall i | i > 0
      ensures OccursAt(haystack, needle, i) <==> OccursAt(haystack[1..], needle, i - 1)
    {
      if i + |needle| <= |haystack| {
        var here := haystack[i..i + |needle|];
        var there := haystack[1..][i - 1..i - 1 + |needle|];
        assert forall k :: 0 <= k < |here| ==> here[k] == there[k];
        assert here == there;
      }
    }
  }

  /** `haystack.includes(needle)`: the needle occurs at some offset. */
  function Includes(haystack: string, needle: string): (r: bool)
    ensures r <==> exists i :: OccursAt(haystack, needle, i)
    decreases |haystack|
  {
    if StartsWith(haystack, needle) then
      assert OccursAt(haystack, needle, 0);
      true
    else if |haystack| == 0 then
      false
    else
      var r := Includes(haystack[1..], needle);
      OccursShift(haystack, needle);
      if r then
        var i :| OccursAt(haystack[1..], needle, i);
        assert OccursAt(haystack, needle, i + 1);
        r
      else
        r
  }

  /**
   * Case-insensitive `includes`, as the pages write it:
   * `haystack.toLowerCase().includes(needle.toLowerCase())`.
   */
  function IncludesIgnoringCase(haystack: string, needle: string): bool {
    Includes(Lower(haystack), Lower(needle))
  }

  /** Glues `pieces` back together with `sep` between neighbours (`Array.prototype.join`). */
  function Join(pieces: seq<string>, sep: char): string
    decreases |pieces|
  {
    if |pieces| == 0 then ""
    else if |pieces| == 1 then pieces[0]
    else pieces[0] + [sep] + Join(pieces[1..], sep)
  }

  /**
   * `s.split(sep)` for a one-character separator: the maximal runs between
   * separators, always at least one (the empty string splits into `[""]`).
   */
  function Split(s: string, sep: char): (r: seq<string>)
    ensures |r| >= 1
    ensures forall k :: 0 <= k < |r| ==> sep !in r[k]
    decreases |s|
  {
    if |s| == 0 then [""]
    else
      var rest := Split(s[1..], sep);
      if s[0] == sep then [""] + rest
      else [[s[0]] + rest[0]] + rest[1..]
  }

  // ---------------------------------------------------------------------------
  // Lemmas

  lemma LowerEmpty()
    ensures Lower("") == ""
  {
  }

  /** The empty needle occurs in every haystack. */
  lemma IncludesEmpty(haystack: string)
    ensures Includes(haystack, "")
  {
    assert OccursAt(haystack, "", 0);
  }

  /** A needle longer than the haystack does not occur in it. */
  lemma NoRoomNoMatch(haystack: string, needle: string)
    requires |needle| > |haystack|
    ensures !Includes(haystack, needle)
  {
  }

  /** Splitting and joining again gives back the original string. */
  lemma {:induction false} JoinSplit(s: string, sep: char)
    ensures Join(Split(s, sep), sep) == s
    decreases |s|
  {
    if |s| > 0 {
      var rest := Split(s[1..], sep);
      JoinSplit(s[1..], sep);
      if s[0] == sep {
        assert Split(s, sep) == [""] + rest;
        assert ([""] + rest)[1..] == rest;
      } else {
        var r := Split(s, sep);
        assert r == [[s[0]] + rest[0]] + rest[1..];
        if |rest| == 1 {
          assert Join(r, sep) == [s[0]] + rest[0];
          assert Join(rest, sep) == rest[0];
        } else {
          assert r[1..] == rest[1..];
          assert Join(r, sep) == [s[0]] + rest[0] + [sep] + Join(rest[1..], sep);
          assert Join(rest, sep) == rest[0] + [sep] + Join(rest[1..], sep);
        }
      }
    }
  }

  /** A string without the separator splits into itself alone. */
  lemma {:induction false} SplitNoSeparator(s: string, sep: char)
    requires sep !in s
    ensures Split(s, sep) == [s]
    decreases |s|
  {
    if |s| > 0 {
      SplitNoSeparator(s[1..], sep);
      assert [s[0]] + s[1..] == s;
    }
  }

  /** A separator-free front piece followed by the separator splits off as the first piece. */
  lemma {:induction false} SplitAtSeparator(a: string, b: string, sep: char)
    requires sep !in a
    ensures Split(a + [sep] + b, sep) == [a] + Split(b, sep)
    decreases |a|
  {
    if |a| == 0 {
      assert a + [sep] + b == [sep] + b;
      assert ([sep] + b)[1..] == b;
    } else {
      SplitAtSeparator(a[1..], b, sep);
      assert (a + [sep] + b)[1..] == a[1..] + [sep] + b;
      assert [a[0]] + a[1..] == a;
    }
  }

  /** Two separator-free pieces joined by the separator split back into those two. */
  lemma SplitTwo(a: string, b: string, sep: char)
    requires sep !in a && sep !in b
    ensures Split(a + [sep] + b, sep) == [a, b]
  {
    SplitAtSeparator(a, b, sep);
    SplitNoSeparator(b, sep);
  }

  /**
   * `s.split(sep)[0]` is the longest separator-free prefix of `s`: it is a
   * prefix, it contains no separator, and it stops at a separator or at the end.
   */
  lemma FirstPiece(s: string, sep: char)
    ensures var w := Split(s, sep)[0];
      && w <= s
      && sep !in w
      && (|w| == |s| || s[|w|] == sep)
  {
    var r := Split(s, sep);
    JoinSplit(s, sep);
    if |r| > 1 {
      assert s == r[0] + [sep] + Join(r[1..], sep);
      assert s[|r[0]|] == sep;
    }
  }
}
