/** The string operations the table is built from, restricted to ASCII:
    `str.strip()`, `str.lower()`, `str.upper()`, `str.replace(' ', '')` and
    `str.split(sep)`.
 */
module Text {

  /** `c.isspace()` for an ASCII character: TAB, LF, VT, FF, CR, the four
      information separators 0x1C..0x1F, and SPACE. */
  predicate IsSpace(c: char)
  {
    (9 <= c as int <= 13) || (28 <= c as int <= 32)
  }

  predicate IsUpper(c: char)
  {
    'A' <= c <= 'Z'
  }

  predicate IsLower(c: char)
  {
    'a' <= c <= 'z'
  }

  function LowerChar(c: char): (d: char)
    ensures !IsUpper(d)
    ensures IsUpper(c) ==> IsLower(d)
    ensures !IsUpper(c) ==> d == c
  {
    if IsUpper(c) then (c as int + 32) as char else c
  }

  function UpperChar(c: char): (d: char)
    ensures !IsLower(d)
    ensures IsLower(c) ==> IsUpper(d)
    ensures !IsLower(c) ==> d == c
  {
    if IsLower(c) then (c as int - 32) as char else c
  }

  /** `s.lower()` on ASCII text. */
  function Lower(s: string): string
  {
    seq(|s|, i requires 0 <= i < |s| => LowerChar(s[i]))
  }

  /** `s.upper()` on ASCII text. */
  function Upper(s: string): string
  {
    seq(|s|, i requires 0 <= i < |s| => UpperChar(s[i]))
  }

  ghost predicate NoUpper(s: string)
  {
    forall i :: 0 <= i < |s| ==> !IsUpper(s[i])
  }

  ghost predicate NoLower(s: string)
  {
    forall i :: 0 <= i < |s| ==> !IsLower(s[i])
  }

  /** Lower-casing changes exactly the strings that contain an upper-case letter. */
  lemma LowerFixedPoint(s: string)
    ensures NoUpper(Lower(s))
    ensures Lower(s) == s <==> NoUpper(s)
  {
    if NoUpper(s) {
      assert forall i :: 0 <= i < |s| ==> Lower(s)[i] == s[i];
    }
  }

  lemma LowerIdempotent(s: string)
    ensures Lower(Lower(s)) == Lower(s)
  {
    LowerFixedPoint(s);
    LowerFixedPoint(Lower(s));
  }

  /** Upper-casing changes exactly the strings that contain a lower-case letter. */
  lemma UpperFixedPoint(s: string)
    ensures NoLower(Upper(s))
    ensures Upper(s) == s <==> NoLower(s)
  {
    if NoLower(s) {
      assert forall i :: 0 <= i < |s| ==> Upper(s)[i] == s[i];
    }
  }

  lemma UpperIdempotent(s: string)
    ensures Upper(Upper(s)) == Upper(s)
  {
    UpperFixedPoint(s);
    UpperFixedPoint(Upper(s));
  }

  /** Two ASCII strings with the same upper-case form have the same lower-case
      form. */
  lemma SameUpperSameLower(a: string, b: string)
    requires Upper(a) == Upper(b)
    ensures Lower(a) == Lower(b)
  {
    forall i | 0 <= i < |a|
      ensures Lower(a)[i] == Lower(b)[i]
    {
      assert Upper(a)[i] == Upper(b)[i];
    }
  }

  /** `s.replace(' ', '')`: every SPACE removed, everything else kept in order
      (see RemoveSpacesSpec). */
  function RemoveSpaces(s: string): string
    decreases |s|
  {
    if |s| == 0 then ""
    else if s[0] == ' ' then RemoveSpaces(s[1..])
    else [s[0]] + RemoveSpaces(s[1..])
  }

  /** The result has no space and keeps every other character of the input;
      text without a space is left as it is. */
  lemma {:induction false} RemoveSpacesSpec(s: string)
    ensures ' ' !in RemoveSpaces(s)
    ensures |RemoveSpaces(s)| <= |s|
    ensures forall c :: c in RemoveSpaces(s) <==> c in s && c != ' '
    ensures ' ' !in s ==> RemoveSpaces(s) == s
    decreases |s|
  {
    if |s| > 0 {
      RemoveSpacesSpec(s[1..]);
      assert s == [s[0]] + s[1..];
    }
  }

  /** Removing spaces works piece by piece: the result for a concatenation is
      the concatenation of the results, a space disappears and any other
      single character stays, so order and multiplicity are kept. */
  lemma {:induction false} RemoveSpacesAppend(a: string, b: string)
    ensures RemoveSpaces(a + b) == RemoveSpaces(a) + RemoveSpaces(b)
    ensures |a| == 1 ==> RemoveSpaces(a) == if a[0] == ' ' then "" else a
    decreases |a|
  {
    if |a| > 0 {
      assert (a + b)[0] == a[0];
      assert (a + b)[1..] == a[1..] + b;
      RemoveSpacesAppend(a[1..], b);
    } else {
      assert a + b == b;
    }
  }

  /** Leading whitespace dropped, as by `str.lstrip()`. */
  function TrimStart(s: string): (r: string)
    ensures |r| <= |s|
    decreases |s|
  {
    if |s| > 0 && IsSpace(s[0]) then TrimStart(s[1..]) else s
  }

  /** Trailing whitespace dropped, as by `str.rstrip()`. */
  function TrimEnd(s: string): (r: string)
    ensures |r| <= |s|
    decreases |s|
  {
    if |s| > 0 && IsSpace(s[|s| - 1]) then TrimEnd(s[..|s| - 1]) else s
  }

  /** `s.strip()`: leading and trailing ASCII whitespace dropped. */
  function Strip(s: string): string
  {
    TrimEnd(TrimStart(s))
  }

  lemma {:induction false} TrimStartSlice(s: string)
    ensures var r := TrimStart(s);
      && r == s[|s| - |r|..]
      && (|r| > 0 ==> !IsSpace(r[0]))
      && (forall i :: 0 <= i < |s| - |r| ==> IsSpace(s[i]))
    decreases |s|
  {
    if |s| > 0 && IsSpace(s[0]) {
      TrimStartSlice(s[1..]);
    }
  }

  lemma {:induction false} TrimEndSlice(s: string)
    ensures var r := TrimEnd(s);
      && r == s[..|r|]
      && (|r| > 0 ==> !IsSpace(r[|r| - 1]))
      && (forall i :: |r| <= i < |s| ==> IsSpace(s[i]))
    decreases |s|
  {
    if |s| > 0 && IsSpace(s[|s| - 1]) {
      TrimEndSlice(s[..|s| - 1]);
    }
  }

  /** The result of `strip` is a slice of its input with only whitespace
      around it, and neither starts nor ends with whitespace. */
  lemma StripSlice(s: string)
    ensures exists i, j ::
              (0 <= i <= j <= |s| && Strip(s) == s[i..j]
               && (forall k :: 0 <= k < i ==> IsSpace(s[k]))
               && (forall k :: j <= k < |s| ==> IsSpace(s[k])))
    ensures |Strip(s)| > 0 ==> !IsSpace(Strip(s)[0]) && !IsSpace(Strip(s)[|Strip(s)| - 1])
  {
    var t := TrimStart(s);
    TrimStartSlice(s);
    TrimEndSlice(t);
    var i := |s| - |t|;
    var j := i + |TrimEnd(t)|;
    assert Strip(s) == s[i..j];
    forall k | j <= k < |s|
      ensures IsSpace(s[k])
    {
      assert s[k] == t[k - i];
    }
  }

  /** Every character is whitespace. */
  predicate AllSpace(s: string)
  {
    forall i :: 0 <= i < |s| ==> IsSpace(s[i])
  }

  /** `strip` leaves nothing exactly when every character is whitespace. */
  lemma StripEmpty(s: string)
    ensures Strip(s) == "" <==> AllSpace(s)
  {
    StripSlice(s);
  }

  /** Text with no whitespace at either end is left alone by `strip`. */
  lemma StripUnpadded(s: string)
    requires |s| > 0 ==> !IsSpace(s[0]) && !IsSpace(s[|s| - 1])
    ensures Strip(s) == s
  {
  }

  lemma StripIdempotent(s: string)
    ensures Strip(Strip(s)) == Strip(s)
  {
    StripSlice(s);
    StripUnpadded(Strip(s));
  }

  /** `s.split(sep)`: the pieces between the non-overlapping occurrences of
      `sep`, scanning left to right.  There is always at least one piece. */
  function Split(s: string, sep: string): (parts: seq<string>)
    requires |sep| > 0
    ensures |parts| >= 1
    decreases |s|
  {
    if |s| < |sep| then [s]
    else if s[..|sep|] == sep then [""] + Split(s[|sep|..], sep)
    else
      var rest := Split(s[1..], sep);
      [[s[0]] + rest[0]] + rest[1..]
  }

  /** `sep.join(parts)`. */
  function Join(parts: seq<string>, sep: string): string
    requires |parts| >= 1
    decreases |parts|
  {
    if |parts| == 1 then parts[0] else parts[0] + sep + Join(parts[1..], sep)
  }

  /** Joining after an empty first piece puts a separator in front. */
  lemma JoinEmptyFirst(rest: seq<string>, sep: string)
    requires |rest| >= 1
    ensures Join([""] + rest, sep) == sep + Join(rest, sep)
  {
    assert ([""] + rest)[1..] == rest;
  }

  /** Gluing a character onto the first piece prefixes it to the join. */
  lemma JoinGlueFirst(c: char, rest: seq<string>, sep: string)
    requires |rest| >= 1
    ensures Join([[c] + rest[0]] + rest[1..], sep) == [c] + Join(rest, sep)
  {
    var parts := [[c] + rest[0]] + rest[1..];
    if |rest| > 1 {
      assert parts[1..] == rest[1..];
    }
  }

  /** `sep` occurs in `s` starting at position `i`. */
  predicate OccursAt(s: string, sep: string, i: nat)
  {
    i + |sep| <= |s| && s[i..i + |sep|] == sep
  }

  /** `sep` occurs somewhere in `s`. */
  ghost predicate Contains(s: string, sep: string)
  {
    exists i: nat :: OccursAt(s, sep, i)
  }

  /** The first piece of a split is a prefix of the input. */
  lemma {:induction false} SplitFirstIsPrefix(s: string, sep: string)
    requires |sep| > 0
    ensures Split(s, sep)[0] <= s
    decreases |s|
  {
    if |s| >= |sep| && s[..|sep|] != sep {
      SplitFirstIsPrefix(s[1..], sep);
      assert s == [s[0]] + s[1..];
    }
  }

  /** Gluing the first character of `s`, which does not start a separator, to
      a separator-free prefix of the rest gives a separator-free piece. */
  lemma GluedPieceFree(s: string, sep: string, piece: string)
    requires |sep| > 0 && |s| >= 1
    requires piece <= s[1..] && !Contains(piece, sep)
    requires |s| >= |sep| ==> s[..|sep|] != sep
    ensures !Contains([s[0]] + piece, sep)
  {
    var first := [s[0]] + piece;
    assert first <= s by {
      assert s == [s[0]] + s[1..];
    }
    forall i: nat
      ensures !OccursAt(first, sep, i)
    {
      if i == 0 {
        if |sep| <= |first| {
          assert first[..|sep|] == s[..|sep|];
        }
      } else if i + |sep| <= |first| {
        assert first[i..i + |sep|] == piece[i - 1..i - 1 + |sep|];
        assert !OccursAt(piece, sep, i - 1);
      }
    }
  }

  /** Splitting cuts at every occurrence of the separator: no piece still
      contains it. */
  lemma {:induction false} SplitPiecesFree(s: string, sep: string)
    requires |sep| > 0
    ensures forall p :: p in Split(s, sep) ==> !Contains(p, sep)
    decreases |s|
  {
    if |s| < |sep| {
      forall i: nat
        ensures !OccursAt(s, sep, i)
      {
      }
    } else if s[..|sep|] == sep {
      SplitPiecesFree(s[|sep|..], sep);
      forall i: nat
        ensures !OccursAt("", sep, i)
      {
      }
      assert Split(s, sep) == [""] + Split(s[|sep|..], sep);
    } else {
      var rest := Split(s[1..], sep);
      SplitPiecesFree(s[1..], sep);
      SplitFirstIsPrefix(s[1..], sep);
      assert rest[0] in rest;
      GluedPieceFree(s, sep, rest[0]);
      assert Split(s, sep) == [[s[0]] + rest[0]] + rest[1..];
      forall p | p in rest[1..]
        ensures p in rest
      {
      }
    }
  }

  /** Splitting loses nothing: joining the pieces back gives the input. */
  lemma {:induction false} JoinSplit(s: string, sep: string)
    requires |sep| > 0
    ensures Join(Split(s, sep), sep) == s
    decreases |s|
  {
    if |s| < |sep| {
    } else if s[..|sep|] == sep {
      JoinSplit(s[|sep|..], sep);
      JoinEmptyFirst(Split(s[|sep|..], sep), sep);
      assert s == sep + s[|sep|..];
    } else {
      JoinSplit(s[1..], sep);
      JoinGlueFirst(s[0], Split(s[1..], sep), sep);
      assert s == [s[0]] + s[1..];
    }
  }
}
