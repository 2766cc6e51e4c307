/**
 * Extension methods on `string`: a substring test, truncation and padding to
 * a width, and taking characters from either end.  Lengths are C# `int`s;
 * `Substring` throws `ArgumentOutOfRangeException` for a position outside
 * the string.
 */
module StringExtensions {
  import opened Results
  import opened MachineIntegers
  import opened DotNetStrings

  /** `n` spaces, as `new string(' ', n)` builds them. */
  function Spaces(n: nat): (r: string)
    ensures |r| == n && forall i :: 0 <= i < n ==> r[i] == ' '
  {
    seq(n, _ => ' ')
  }

  /**
   * `source.Contains(toCheck, StringComparison.Ordinal)`: `IndexOf` finds a
   * position, so a null source gives false and an empty `toCheck` is found
   * in every string.
   */
  function Contains(source: Option<string>, toCheck: string): (b: bool)
    ensures b <==> source.Some? && exists j :: OccursAt(source.value, toCheck, j)
  {
    source.Some? && IndexOfFrom(source.value, toCheck, 0) >= 0
  }

  /** The empty string occurs in every non-null string. */
  lemma ContainsEmpty(source: Option<string>)
    ensures Contains(source, "") <==> source.Some?
  {
    if source.Some? {
      assert OccursAt(source.value, "", 0);
    }
  }

  /** Every string contains itself and each of its substrings. */
  lemma ContainsSubstring(s: string, i: nat, j: nat)
    requires i <= j <= |s|
    ensures Contains(Some(s), s[i..j])
  {
    assert OccursAt(s, s[i..j], i);
  }

  /**
   * `source.TruncateTo(length)`: the source itself when it fits, otherwise its
   * first `length` characters; a negative length reaches `Substring` and throws.
   */
  function TruncateTo(source: string, length: int32): (r: Result<string>)
    ensures r.Throws? <==> length < 0
    ensures r.Throws? ==> r.error == ArgumentOutOfRangeException
    ensures r.Ok? ==> |r.value| == if |source| <= length as int then |source| else length as int
    ensures r.Ok? ==> r.value == source[..|r.value|]
  {
    if |source| <= length as int then Ok(source)
    else Left(source, length)
  }

  /** Truncating twice to the same length is truncating once. */
  lemma TruncateToIdempotent(source: string, length: int32)
    requires length >= 0
    ensures TruncateTo(TruncateTo(source, length).value, length) == TruncateTo(source, length)
  {
  }

  /**
   * `source.ExpandTo(length)`: pads the source with spaces at the end up to
   * `length` characters; a source already that long is returned as it is.
   */
  function ExpandTo(source: string, length: int32): (r: string)
    ensures |r| == if |source| <= length as int then length as int else |source|
    ensures r[..|source|] == source
    ensures forall i :: |source| <= i < |r| ==> r[i] == ' '
  {
    if |source| <= length as int then source + Spaces(length as int - |source|)
    else source
  }

  /** Padding and then truncating to the same non-negative width gives exactly that width. */
  lemma ExpandThenTruncateFits(source: string, width: int32)
    requires width >= 0
    ensures TruncateTo(ExpandTo(source, width), width).Ok?
    ensures |TruncateTo(ExpandTo(source, width), width).value| == width as int
  {
  }

  /** `source.Left(length)`: the first `length` characters, or `ArgumentOutOfRangeException` when there are not that many. */
  function Left(source: string, length: int32): (r: Result<string>)
    ensures r.Throws? <==> !(0 <= length as int <= |source|)
    ensures r.Throws? ==> r.error == ArgumentOutOfRangeException
    ensures r.Ok? ==> |r.value| == length as int && source == r.value + source[length..]
  {
    if 0 <= length as int <= |source| then Ok(source[..length]) else Throws(ArgumentOutOfRangeException)
  }

  /** `source.Right(length)`: the last `length` characters, or `ArgumentOutOfRangeException` when there are not that many. */
  function Right(source: string, length: int32): (r: Result<string>)
    ensures r.Throws? <==> !(0 <= length as int <= |source|)
    ensures r.Throws? ==> r.error == ArgumentOutOfRangeException
    ensures r.Ok? ==> |r.value| == length as int && source == source[..|source| - length as int] + r.value
  {
    var start := |source| - length as int;
    if 0 <= start <= |source| then Ok(source[start..]) else Throws(ArgumentOutOfRangeException)
  }

  /** The left `n` characters followed by the right `|s| - n` characters make up the string again. */
  lemma LeftRightSplit(source: string, n: int32)
    requires 0 <= n as int <= |source|
    requires |source| < TWO_31
    ensures Left(source, n).Ok? && Right(source, (|source| - n as int) as int32).Ok?
    ensures Left(source, n).value + Right(source, (|source| - n as int) as int32).value == source
  {
    assert source == source[..n] + source[n..];
  }

  /** For a string longer than the width, truncating is taking the left characters. */
  lemma TruncateIsLeft(source: string, length: int32)
    requires 0 <= length as int < |source|
    ensures TruncateTo(source, length) == Left(source, length)
  {
  }
}
