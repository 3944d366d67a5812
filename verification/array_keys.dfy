/** What `for (const element in array)` enumerates over a plain array: the
    array's index keys, each the canonical decimal string of an index
    ("0", "1", ...), never the elements themselves. The duplicate check of
    `validateTextDocument` compares these keys with a scanned name. */
module ArrayKeys {
  import opened Scanner

  /** The decimal digit character for `d`. */
  function DigitChar(d: nat): (c: char)
    requires d < 10
    ensures IsDigit(c)
  {
    ('0' as int + d) as char
  }

  /** The value of a decimal digit character. */
  function DigitValue(c: char): (d: nat)
    requires IsDigit(c)
    ensures d < 10
    ensures DigitChar(d) == c
  {
    c as int - '0' as int
  }

  /** A non-empty string of decimal digits. */
  predicate IsDigitString(s: string) {
    |s| > 0 && forall i :: 0 <= i < |s| ==> IsDigit(s[i])
  }

  /** The property key of array index `i`: its decimal numeral without
      leading zeros. */
  function IndexKey(i: nat): (key: string)
    ensures IsDigitString(key)
    decreases i
  {
    if i < 10 then [DigitChar(i)] else IndexKey(i / 10) + [DigitChar(i % 10)]
  }

  /** Reads a decimal numeral back into the index it names. */
  function ParseDecimal(s: string): nat
    requires forall i :: 0 <= i < |s| ==> IsDigit(s[i])
    decreases |s|
  {
    if |s| == 0 then 0 else 10 * ParseDecimal(s[..|s| - 1]) + DigitValue(s[|s| - 1])
  }

  /** The keys a `for...in` loop visits over an array, in visiting order:
      one per index, ascending. */
  function ForInKeys<T>(arr: seq<T>): (keys: seq<string>)
    ensures |keys| == |arr|
    ensures forall j :: 0 <= j < |keys| ==> IsDigitString(keys[j]) && ParseDecimal(keys[j]) == j
  {
    IndexKeysRoundTrip();
    seq(|arr|, j requires 0 <= j < |arr| => IndexKey(j))
  }

  /** Each index key names its index: reading it back gives the index. */
  lemma {:induction false} IndexKeyRoundTrip(i: nat)
    ensures ParseDecimal(IndexKey(i)) == i
    decreases i
  {
    var key := IndexKey(i);
    if i >= 10 {
      IndexKeyRoundTrip(i / 10);
      assert key[..|key| - 1] == IndexKey(i / 10);
    } else {
      assert key[..|key| - 1] == [];
    }
  }

  lemma IndexKeysRoundTrip()
    ensures forall i: nat {:trigger IndexKey(i)} :: ParseDecimal(IndexKey(i)) == i
  {
    forall i: nat
      ensures ParseDecimal(IndexKey(i)) == i
    {
      IndexKeyRoundTrip(i);
    }
  }

  /** No array index key equals a scanned name: a key starts with a digit,
      a name with a letter. */
  lemma KeyIsNeverName(key: string, n: string)
    requires IsDigitString(key)
    requires IsName(n)
    ensures key != n
  {
    assert IsDigit(key[0]) && IsAsciiLetter(n[0]);
  }
}
