/**
 * Values shared by every component: the optional and failure-carrying
 * wrappers, and the string operations of the Java and Python runtimes that
 * the plugin relies on (String.trim, String.split, startsWith, decimal
 * formatting), written out so that their edge cases are explicit.
 */
module Common {

  datatype Option<T> = None | Some(value: T)

  datatype Result<T, E> = Success(value: T) | Failure(error: E)

  /** Java's int range. */
  const MinInt: int := -0x8000_0000
  const MaxInt: int := 0x7fff_ffff

  type Int32 = x: int | MinInt <= x <= MaxInt

  /** Two's-complement wrap-around of a mathematical integer into Java's int. */
  function Wrap32(x: int): (r: Int32)
    ensures MinInt <= x <= MaxInt ==> r == x
  {
    if MinInt <= x <= MaxInt then x
    else (x - MinInt) % 0x1_0000_0000 + MinInt
  }

  /** The wrapped value differs from the mathematical one by a multiple of 2^32. */
  lemma Wrap32Congruent(x: int)
    ensures (Wrap32(x) - x) % 0x1_0000_0000 == 0
  {
  }

  predicate StartsWith(s: string, prefix: string)
  {
    |prefix| <= |s| && s[..|prefix|] == prefix
  }

  /** Java's String.trim removes every leading and trailing char at or below U+0020. */
  predicate IsTrimmed(c: char)
  {
    c <= ' '
  }

  function TrimStart(s: string): (r: string)
    ensures |r| <= |s|
    ensures r != [] ==> !IsTrimmed(r[0])
  {
    if |s| > 0 && IsTrimmed(s[0]) then TrimStart(s[1..]) else s
  }

  function TrimEnd(s: string): (r: string)
    ensures |r| <= |s|
    ensures r != [] ==> !IsTrimmed(r[|r| - 1]) && r[0] == s[0]
  {
    if |s| > 0 && IsTrimmed(s[|s| - 1]) then TrimEnd(s[..|s| - 1]) else s
  }

  /** String.trim(): the longest infix whose first and last chars are above U+0020. */
  function Trim(s: string): (r: string)
    ensures r != [] ==> !IsTrimmed(r[0]) && !IsTrimmed(r[|r| - 1])
  {
    TrimEnd(TrimStart(s))
  }

  /** TrimStart drops exactly the leading trimmable chars. */
  lemma {:induction false} TrimStartDrops(s: string)
    ensures TrimStart(s) == s[|s| - |TrimStart(s)|..]
    ensures forall i :: 0 <= i < |s| - |TrimStart(s)| ==> IsTrimmed(s[i])
    decreases |s|
  {
    if |s| > 0 && IsTrimmed(s[0]) {
      TrimStartDrops(s[1..]);
    }
  }

  /** TrimEnd drops exactly the trailing trimmable chars. */
  lemma {:induction false} TrimEndDrops(s: string)
    ensures TrimEnd(s) == s[..|TrimEnd(s)|]
    ensures forall i :: |TrimEnd(s)| <= i < |s| ==> IsTrimmed(s[i])
    decreases |s|
  {
    if |s| > 0 && IsTrimmed(s[|s| - 1]) {
      TrimEndDrops(s[..|s| - 1]);
    }
  }

  /** Trim keeps an infix of its input and drops only trimmable chars around it. */
  lemma TrimIsInfix(s: string)
    ensures var k := |s| - |TrimStart(s)|; k + |Trim(s)| <= |s| && Trim(s) == s[k..k + |Trim(s)|]
    ensures forall i :: 0 <= i < |s| - |TrimStart(s)| ==> IsTrimmed(s[i])
    ensures forall i :: |s| - |TrimStart(s)| + |Trim(s)| <= i < |s| ==> IsTrimmed(s[i])
  {
    TrimStartDrops(s);
    TrimEndDrops(TrimStart(s));
  }

  lemma TrimOfUntrimmed(s: string)
    requires s != [] ==> !IsTrimmed(s[0]) && !IsTrimmed(s[|s| - 1])
    ensures Trim(s) == s
  {
  }

  /** A trimmed string is empty exactly when every char of the input is trimmable. */
  lemma {:induction false} TrimEmptyIff(s: string)
    ensures Trim(s) == [] <==> forall i :: 0 <= i < |s| ==> IsTrimmed(s[i])
  {
    TrimIsInfix(s);
    TrimStartDrops(s);
    var t := TrimStart(s);
    if t != [] {
      assert !IsTrimmed(t[0]) && t[0] == s[|s| - |t|];
      assert TrimEnd(t) != [];
    }
  }

  function IndexOf(s: string, c: char): (r: int)
    ensures -1 <= r < |s|
    ensures r == -1 <==> c !in s
    ensures r >= 0 ==> s[r] == c && c !in s[..r]
  {
    if |s| == 0 then -1
    else if s[0] == c then 0
    else
      var i := IndexOf(s[1..], c);
      assert s[1..][..(if i < 0 then 0 else i)] == s[1..1 + (if i < 0 then 0 else i)];
      if i < 0 then -1 else i + 1
  }

  /** Removes the empty strings at the end of a list of split pieces, as Java's split with limit 0 does. */
  function DropTrailingEmpty(parts: seq<string>): (r: seq<string>)
    ensures |r| <= |parts|
  {
    if |parts| > 0 && parts[|parts| - 1] == [] then DropTrailingEmpty(parts[..|parts| - 1]) else parts
  }

  /** DropTrailingEmpty keeps a prefix that ends in a non-empty piece, and drops only empty pieces. */
  lemma {:induction false} DropTrailingEmptyDrops(parts: seq<string>)
    ensures var r := DropTrailingEmpty(parts);
            r == parts[..|r|] && (r != [] ==> r[|r| - 1] != []) &&
            forall i :: |r| <= i < |parts| ==> parts[i] == []
    decreases |parts|
  {
    if |parts| > 0 && parts[|parts| - 1] == [] {
      DropTrailingEmptyDrops(parts[..|parts| - 1]);
    }
  }

  /** Every piece of s between occurrences of sep, in order (one more piece than separators). */
  function SplitAll(s: string, sep: char): (r: seq<string>)
    ensures |r| >= 1
  {
    if |s| == 0 then [""]
    else if s[0] == sep then [""] + SplitAll(s[1..], sep)
    else
      var rest := SplitAll(s[1..], sep);
      [[s[0]] + rest[0]] + rest[1..]
  }

  /** A string without the separator is one piece. */
  lemma {:induction false} SplitAllWithoutSep(s: string, sep: char)
    requires sep !in s
    ensures SplitAll(s, sep) == [s]
  {
    if |s| > 0 {
      SplitAllWithoutSep(s[1..], sep);
      assert [s[0]] + s[1..] == s;
    }
  }

  /** The first piece ends at the first separator. */
  lemma {:induction false} SplitAllAtSep(a: string, sep: char, rest: string)
    requires sep !in a
    ensures SplitAll(a + [sep] + rest, sep) == [a] + SplitAll(rest, sep)
  {
    if |a| == 0 {
      assert a + [sep] + rest == [sep] + rest;
      assert (a + [sep] + rest)[1..] == rest;
    } else {
      SplitAllAtSep(a[1..], sep, rest);
      assert (a + [sep] + rest)[1..] == a[1..] + [sep] + rest;
      assert [a[0]] + a[1..] == a;
    }
  }

  /** Java's s.split(":") for a one-char literal separator: no separator gives [s]; trailing empty pieces are dropped. */
  function JavaSplit(s: string, sep: char): seq<string>
  {
    if sep !in s then [s] else DropTrailingEmpty(SplitAll(s, sep))
  }

  /** No piece of a split holds the separator. */
  lemma {:induction false} SplitAllPieces(s: string, sep: char)
    ensures forall i :: 0 <= i < |SplitAll(s, sep)| ==> sep !in SplitAll(s, sep)[i]
  {
    if |s| > 0 {
      SplitAllPieces(s[1..], sep);
    }
  }

  /** No piece of Java's split holds the separator, and the pieces are at most one more than the separators. */
  lemma JavaSplitPieces(s: string, sep: char)
    ensures forall i :: 0 <= i < |JavaSplit(s, sep)| ==> sep !in JavaSplit(s, sep)[i]
  {
    SplitAllPieces(s, sep);
    DropTrailingEmptyDrops(SplitAll(s, sep));
  }

  /** Every char of a split piece is a char of the split string. */
  lemma {:induction false} SplitAllChars(s: string, sep: char)
    ensures forall i, c :: 0 <= i < |SplitAll(s, sep)| && c in SplitAll(s, sep)[i] ==> c in s
  {
    if |s| > 0 {
      SplitAllChars(s[1..], sep);
      var rest := SplitAll(s[1..], sep);
      assert forall c :: c in s[1..] ==> c in s;
      if s[0] != sep {
        forall i, c | 0 <= i < |SplitAll(s, sep)| && c in SplitAll(s, sep)[i]
          ensures c in s
        {
          if i == 0 {
            assert c == s[0] || c in rest[0];
          } else {
            assert SplitAll(s, sep)[i] == rest[i];
          }
        }
      }
    }
  }

  /** Every char of a piece of Java's split is a char of the split string. */
  lemma JavaSplitChars(s: string, sep: char)
    ensures forall i, c :: 0 <= i < |JavaSplit(s, sep)| && c in JavaSplit(s, sep)[i] ==> c in s
  {
    SplitAllChars(s, sep);
    DropTrailingEmptyDrops(SplitAll(s, sep));
  }

  /** The number a string of decimal digits denotes. */
  function DigitsValue(s: string): nat
    requires forall i :: 0 <= i < |s| ==> '0' <= s[i] <= '9'
  {
    if s == [] then 0 else 10 * DigitsValue(s[..|s| - 1]) + (s[|s| - 1] - '0') as int
  }

  /** Decimal digits of n, as Java's "%d" prints a non-negative int: they read back as n, with no leading zero. */
  function DecimalString(n: nat): (r: string)
    ensures |r| >= 1
    ensures forall i :: 0 <= i < |r| ==> '0' <= r[i] <= '9'
    ensures DigitsValue(r) == n
    ensures r[0] == '0' ==> r == "0"
  {
    var d := ['0' + (n % 10) as char];
    assert (d[0] - '0') as int == n % 10;
    if n < 10 then d
    else
      var high := DecimalString(n / 10);
      var r := high + d;
      assert r[..|r| - 1] == high;
      assert r[0] == high[0];
      r
  }

  /** ASCII lower-casing. */
  function ToLowerAscii(s: string): (r: string)
    ensures |r| == |s|
  {
    if |s| == 0 then [] else
      [if 'A' <= s[0] <= 'Z' then (s[0] - 'A' + 'a') else s[0]] + ToLowerAscii(s[1..])
  }

  /** Each char is lowered on its own: upper-case ASCII letters move to lower case, every other char stays. */
  lemma {:induction false} ToLowerAsciiChars(s: string)
    ensures forall i :: 0 <= i < |s| ==>
      ToLowerAscii(s)[i] == if 'A' <= s[i] <= 'Z' then (s[i] - 'A' + 'a') else s[i]
  {
    if |s| > 0 {
      ToLowerAsciiChars(s[1..]);
    }
  }
}
