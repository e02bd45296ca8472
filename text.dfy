/**
 * The string primitives the feedback store is built from: ASCII lower-casing
 * (`strtolower`), substring search (`strpos(...) !== false`) and the split of a
 * selector on `.` and `!` (`preg_split('/[\!\.]/', ...)`).
 */
module Text {

  /** The two characters a selector is split on. */
  predicate IsSeparator(c: char) {
    c == '.' || c == '!'
  }

  predicate HasSeparator(s: string) {
    exists i :: 0 <= i < |s| && IsSeparator(s[i])
  }

  predicate IsUpper(c: char) {
    'A' <= c <= 'Z'
  }

  /** `strtolower` on one character: only ASCII letters change. */
  function LowerChar(c: char): (r: char)
    ensures !IsUpper(r)
    ensures IsSeparator(r) <==> IsSeparator(c)
    ensures r == c || (IsUpper(c) && r as int == c as int + 32)
  {
    if IsUpper(c) then (c as int + 32) as char else c
  }

  /** `strtolower` on a string, character by character. */
  function Lower(s: string): (r: string)
    ensures |r| == |s|
    ensures forall i :: 0 <= i < |s| ==> !IsUpper(r[i])
    ensures forall i :: 0 <= i < |s| ==> r[i] == s[i] || (IsUpper(s[i]) && r[i] as int == s[i] as int + 32)
  {
    seq(|s|, i requires 0 <= i < |s| => LowerChar(s[i]))
  }

  predicate IsLowerCase(s: string) {
    forall i :: 0 <= i < |s| ==> !IsUpper(s[i])
  }

  /** Lower-casing works character by character, so it commutes with slicing. */
  lemma LowerSlice(s: string, a: nat, b: nat)
    requires a <= b <= |s|
    ensures Lower(s)[a..b] == Lower(s[a..b])
  {
  }

  /** Lower-casing leaves no upper-case letter and is idempotent. */
  lemma LowerIsLowerCase(s: string)
    ensures IsLowerCase(Lower(s))
    ensures Lower(Lower(s)) == Lower(s)
  {
  }

  /** Lower-casing a concatenation lower-cases each part. */
  lemma LowerConcat(a: string, b: string)
    ensures Lower(a + b) == Lower(a) + Lower(b)
  {
  }

  /** Lower-casing neither adds nor removes a separator, and keeps each in place. */
  lemma LowerKeepsSeparators(s: string)
    ensures HasSeparator(Lower(s)) <==> HasSeparator(s)
    ensures forall i :: 0 <= i < |s| ==> (Lower(s)[i] == '!' <==> s[i] == '!')
  {
    if HasSeparator(s) {
      var i :| 0 <= i < |s| && IsSeparator(s[i]);
      assert IsSeparator(Lower(s)[i]);
    }
    if HasSeparator(Lower(s)) {
      var i :| 0 <= i < |s| && IsSeparator(Lower(s)[i]);
      assert IsSeparator(s[i]);
    }
  }

  predicate StartsWith(s: string, prefix: string) {
    |prefix| <= |s| && s[..|prefix|] == prefix
  }

  /** `needle` occurs in `hay` at index `i`. */
  predicate OccursAt(hay: string, needle: string, i: int) {
    0 <= i && i + |needle| <= |hay| && hay[i..i + |needle|] == needle
  }

  /**
   * `strpos($hay, $needle) !== false`: the needle occurs somewhere in the
   * haystack. As in PHP 8, the empty needle occurs in every string.
   */
  function Contains(hay: string, needle: string): (found: bool)
    ensures needle == [] ==> found
    ensures found ==> |needle| <= |hay|
    decreases |hay|
  {
    StartsWith(hay, needle) || (hay != [] && Contains(hay[1..], needle))
  }

  /** The search above agrees with the positional definition of a substring. */
  lemma {:induction false} ContainsIff(hay: string, needle: string)
    ensures Contains(hay, needle) <==> exists i :: OccursAt(hay, needle, i)
    decreases |hay|
  {
    if StartsWith(hay, needle) {
      assert OccursAt(hay, needle, 0);
    } else if hay == [] {
      assert forall i :: OccursAt(hay, needle, i) ==> i == 0;
    } else {
      ContainsIff(hay[1..], needle);
      if exists i :: OccursAt(hay[1..], needle, i) {
        var i :| OccursAt(hay[1..], needle, i);
        assert hay[1..][i..i + |needle|] == hay[i + 1..i + 1 + |needle|];
        assert OccursAt(hay, needle, i + 1);
      }
      if exists i :: OccursAt(hay, needle, i) {
        var i :| OccursAt(hay, needle, i);
        assert i != 0 by { assert !StartsWith(hay, needle); }
        assert hay[1..][i - 1..i - 1 + |needle|] == hay[i..i + |needle|];
        assert OccursAt(hay[1..], needle, i - 1);
      }
    }
  }

  /** A string contains whatever occurs in it at a known position. */
  lemma ContainsAt(hay: string, needle: string, i: int)
    requires OccursAt(hay, needle, i)
    ensures Contains(hay, needle)
  {
    ContainsIff(hay, needle);
  }

  /** Every string contains the empty string and itself, and each part of a concatenation. */
  lemma ContainsParts(a: string, b: string, c: string)
    ensures Contains(a + b + c, b)
    ensures Contains(a + b + c, "")
  {
    assert (a + b + c)[|a|..|a| + |b|] == b;
    ContainsAt(a + b + c, b, |a|);
    assert (a + b + c)[0..0] == "";
    ContainsAt(a + b + c, "", 0);
  }

  /**
   * `preg_split('/[\!\.]/', $s)`: the pieces between separators, in order,
   * with an empty piece before a leading separator, between two adjacent
   * separators and after a trailing one.
   */
  function Split(s: string): (pieces: seq<string>)
    ensures |pieces| >= 1
    ensures forall k :: 0 <= k < |pieces| ==> !HasSeparator(pieces[k])
    ensures |pieces| >= 2 <==> HasSeparator(s)
    decreases |s|
  {
    if s == [] then [""]
    else if IsSeparator(s[0]) then [""] + Split(s[1..])
    else
      var rest := Split(s[1..]);
      assert HasSeparator(s[1..]) ==> HasSeparator(s) by {
        if HasSeparator(s[1..]) {
          var i :| 0 <= i < |s[1..]| && IsSeparator(s[1..][i]);
          assert IsSeparator(s[i + 1]);
        }
      }
      assert HasSeparator(s) ==> HasSeparator(s[1..]) by {
        if HasSeparator(s) {
          var i :| 0 <= i < |s| && IsSeparator(s[i]);
          assert i != 0;
          assert IsSeparator(s[1..][i - 1]);
        }
      }
      assert !HasSeparator([s[0]] + rest[0]) by {
        forall i | 0 <= i < |[s[0]] + rest[0]|
          ensures !IsSeparator(([s[0]] + rest[0])[i])
        {
          if i > 0 {
            assert ([s[0]] + rest[0])[i] == rest[0][i - 1];
          }
        }
      }
      [[s[0]] + rest[0]] + rest[1..]
  }

  /** Index `i` holds the first separator of `s`. */
  predicate FirstSeparatorAt(s: string, i: int) {
    0 <= i < |s| && IsSeparator(s[i]) && !HasSeparator(s[..i])
  }

  /** Without a separator the whole string is the one piece. */
  lemma {:induction false} SplitNoSeparator(s: string)
    requires !HasSeparator(s)
    ensures Split(s) == [s]
    decreases |s|
  {
    if s != [] {
      assert !IsSeparator(s[0]);
      assert forall i :: 0 <= i < |s[1..]| ==> s[1..][i] == s[i + 1];
      SplitNoSeparator(s[1..]);
      assert [s[0]] + s[1..] == s;
    }
  }

  /**
   * The first piece is everything before the first separator, and the other
   * pieces are those of the text after it.
   */
  lemma {:induction false} SplitAtFirst(s: string, i: int)
    requires FirstSeparatorAt(s, i)
    ensures Split(s)[0] == s[..i]
    ensures Split(s)[1..] == Split(s[i + 1..])
    decreases i
  {
    if i == 0 {
      assert Split(s) == [""] + Split(s[1..]);
    } else {
      assert !IsSeparator(s[0]) by { assert s[..i][0] == s[0]; }
      assert FirstSeparatorAt(s[1..], i - 1) by {
        assert s[1..][i - 1] == s[i];
        var tail, head := s[1..][..i - 1], s[..i];
        assert forall j :: 0 <= j < |tail| ==> tail[j] == head[j + 1];
      }
      SplitAtFirst(s[1..], i - 1);
      assert s[1..][i - 1 + 1..] == s[i + 1..];
      assert [s[0]] + s[1..][..i - 1] == s[..i];
    }
  }

  /**
   * With the first separator at `i` and the next one (or the end) at `j`, the
   * first two pieces are the text before `i` and the text between `i` and `j`.
   */
  lemma SplitFirstTwo(s: string, i: nat, j: nat)
    requires FirstSeparatorAt(s, i)
    requires i < j <= |s| && !HasSeparator(s[i + 1..j])
    requires j < |s| ==> IsSeparator(s[j])
    ensures |Split(s)| >= 2 && Split(s)[0] == s[..i] && Split(s)[1] == s[i + 1..j]
  {
    SplitAtFirst(s, i);
    var rest := s[i + 1..];
    assert rest[..j - i - 1] == s[i + 1..j];
    if j == |s| {
      assert rest == s[i + 1..j];
      SplitNoSeparator(rest);
    } else {
      assert FirstSeparatorAt(rest, j - i - 1);
      SplitAtFirst(rest, j - i - 1);
    }
  }

  /** The index of the first separator of `s`, or `|s|` when it has none. */
  function SeparatorIndex(s: string): (i: nat)
    ensures i <= |s|
    ensures i < |s| ==> FirstSeparatorAt(s, i)
    ensures i == |s| ==> !HasSeparator(s)
    decreases |s|
  {
    if s == [] then 0
    else if IsSeparator(s[0]) then 0
    else
      var j := SeparatorIndex(s[1..]);
      assert forall k :: 0 <= k < |s[1..]| ==> s[1..][k] == s[k + 1];
      assert j < |s[1..]| ==> s[..j + 1] == [s[0]] + s[1..][..j];
      1 + j
  }

  /** A one-character needle is found exactly when the character occurs. */
  lemma ContainsChar(hay: string, c: char)
    ensures Contains(hay, [c]) <==> c in hay
  {
    ContainsIff(hay, [c]);
    if c in hay {
      var i :| 0 <= i < |hay| && hay[i] == c;
      assert OccursAt(hay, [c], i);
    }
    if exists i :: OccursAt(hay, [c], i) {
      var i :| OccursAt(hay, [c], i);
      assert hay[i] == hay[i..i + 1][0];
    }
  }

  /** Every slice of a string occurs in it. */
  lemma ContainsSlice(s: string, a: nat, b: nat)
    requires a <= b <= |s|
    ensures Contains(s, s[a..b])
  {
    ContainsAt(s, s[a..b], a);
  }

  /** A found needle's characters all occur in the haystack. */
  lemma ContainsHasChars(hay: string, needle: string, k: nat)
    requires k < |needle|
    ensures Contains(hay, needle) ==> needle[k] in hay
  {
    ContainsIff(hay, needle);
    if Contains(hay, needle) {
      var i :| OccursAt(hay, needle, i);
      assert hay[i..i + |needle|][k] == hay[i + k];
    }
  }
}
