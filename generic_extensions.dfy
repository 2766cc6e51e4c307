/**
 * Positional deconstruction of a list into one to five variables: each
 * variable takes the list's element at its position, or the type's default
 * value when the list is too short.  The default value is a parameter here.
 */
module GenericExtensions {

  /** The list cut or padded with `dflt` to exactly `n` elements. */
  function Padded<T>(list: seq<T>, n: nat, dflt: T): (r: seq<T>)
    ensures |r| == n
  {
    if |list| >= n then list[..n] else list + seq(n - |list|, _ => dflt)
  }

  /** Position `i` of the padded list is the list's element there, or the default past its end. */
  lemma PaddedAt<T>(list: seq<T>, n: nat, dflt: T, i: nat)
    requires i < n
    ensures Padded(list, n, dflt)[i] == if i < |list| then list[i] else dflt
  {
  }

  function Deconstruct1<T>(list: seq<T>, dflt: T): (first: T)
    ensures [first] == Padded(list, 1, dflt)
  {
    PaddedAt(list, 1, dflt, 0);
    if |list| > 0 then list[0] else dflt
  }

  function Deconstruct2<T>(list: seq<T>, dflt: T): (r: (T, T))
    ensures [r.0, r.1] == Padded(list, 2, dflt)
  {
    PaddedAt(list, 2, dflt, 0);
    PaddedAt(list, 2, dflt, 1);
    (if |list| > 0 then list[0] else dflt,
     if |list| > 1 then list[1] else dflt)
  }

  function Deconstruct3<T>(list: seq<T>, dflt: T): (r: (T, T, T))
    ensures [r.0, r.1, r.2] == Padded(list, 3, dflt)
  {
    PaddedAt(list, 3, dflt, 0);
    PaddedAt(list, 3, dflt, 1);
    PaddedAt(list, 3, dflt, 2);
    (if |list| > 0 then list[0] else dflt,
     if |list| > 1 then list[1] else dflt,
     if |list| > 2 then list[2] else dflt)
  }

  function Deconstruct4<T>(list: seq<T>, dflt: T): (r: (T, T, T, T))
    ensures [r.0, r.1, r.2, r.3] == Padded(list, 4, dflt)
  {
    PaddedAt(list, 4, dflt, 0);
    PaddedAt(list, 4, dflt, 1);
    PaddedAt(list, 4, dflt, 2);
    PaddedAt(list, 4, dflt, 3);
    (if |list| > 0 then list[0] else dflt,
     if |list| > 1 then list[1] else dflt,
     if |list| > 2 then list[2] else dflt,
     if |list| > 3 then list[3] else dflt)
  }

  function Deconstruct5<T>(list: seq<T>, dflt: T): (r: (T, T, T, T, T))
    ensures [r.0, r.1, r.2, r.3, r.4] == Padded(list, 5, dflt)
  {
    PaddedAt(list, 5, dflt, 0);
    PaddedAt(list, 5, dflt, 1);
    PaddedAt(list, 5, dflt, 2);
    PaddedAt(list, 5, dflt, 3);
    PaddedAt(list, 5, dflt, 4);
    (if |list| > 0 then list[0] else dflt,
     if |list| > 1 then list[1] else dflt,
     if |list| > 2 then list[2] else dflt,
     if |list| > 3 then list[3] else dflt,
     if |list| > 4 then list[4] else dflt)
  }

  /** Padding to `m` and then to a smaller `n` is padding to `n`. */
  lemma PaddedPrefix<T>(list: seq<T>, n: nat, m: nat, dflt: T)
    requires n <= m
    ensures Padded(Padded(list, m, dflt), n, dflt) == Padded(list, n, dflt)
  {
    forall i | 0 <= i < n
      ensures Padded(Padded(list, m, dflt), n, dflt)[i] == Padded(list, n, dflt)[i]
    {
      PaddedAt(Padded(list, m, dflt), n, dflt, i);
      PaddedAt(list, m, dflt, i);
      PaddedAt(list, n, dflt, i);
    }
  }

  /** A deconstruction into fewer variables agrees with the first variables of one into more. */
  lemma SmallerArityAgrees<T>(list: seq<T>, dflt: T)
    ensures Deconstruct1(list, dflt) == Deconstruct2(list, dflt).0
    ensures Deconstruct2(list, dflt) == (Deconstruct3(list, dflt).0, Deconstruct3(list, dflt).1)
    ensures Deconstruct3(list, dflt) == (Deconstruct4(list, dflt).0, Deconstruct4(list, dflt).1, Deconstruct4(list, dflt).2)
    ensures Deconstruct4(list, dflt) ==
      (Deconstruct5(list, dflt).0, Deconstruct5(list, dflt).1, Deconstruct5(list, dflt).2, Deconstruct5(list, dflt).3)
  {
    PaddedAt(list, 2, dflt, 0);
    PaddedAt(list, 3, dflt, 1);
    PaddedAt(list, 4, dflt, 2);
    PaddedAt(list, 5, dflt, 3);
    assert Deconstruct1(list, dflt) == Padded(list, 1, dflt)[0];
  }

  /** Elements past the fifth play no part. */
  lemma ExtraElementsIgnored<T>(list: seq<T>, extra: seq<T>, dflt: T)
    requires |list| >= 5
    ensures Deconstruct5(list + extra, dflt) == Deconstruct5(list, dflt)
  {
    assert (list + extra)[..5] == list[..5];
  }

  /** `"John Doe".Split(' ')`, i.e. `["John", "Doe"]`, deconstructs into first and last name. */
  lemma JohnDoe(dflt: string)
    ensures Deconstruct2(["John", "Doe"], dflt) == ("John", "Doe")
  {
  }
}
