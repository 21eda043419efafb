/**
 * String helpers shared by both models: ASCII case folding (the part of
 * Java's `equalsIgnoreCase` and JavaScript's `toLowerCase` the models rely
 * on), joining with a separator, and decimal rendering of counters.
 */
module Text {

  datatype Option<T> = None | Some(value: T)

  /** Lower-case mapping of one character; only the ASCII letters change. */
  function LowerChar(c: char): char
  {
    if 'A' <= c <= 'Z' then (c as int + 32) as char else c
  }

  /** Lower-cases a string character by character. */
  function Lower(s: string): (r: string)
    ensures |r| == |s|
    ensures forall i :: 0 <= i < |s| ==> r[i] == LowerChar(s[i])
  {
    if s == [] then [] else [LowerChar(s[0])] + Lower(s[1..])
  }

  /** A string without upper-case ASCII letters is its own lower-case form. */
  lemma LowerOfLowerCase(s: string)
    requires forall i :: 0 <= i < |s| ==> !('A' <= s[i] <= 'Z')
    ensures Lower(s) == s
  {
    assert forall i :: 0 <= i < |s| ==> Lower(s)[i] == s[i];
  }

  /** Case-insensitive equality: same length and equal after folding each character. */
  predicate EqualsIgnoreCase(a: string, b: string)
  {
    |a| == |b| && forall i :: 0 <= i < |a| ==> LowerChar(a[i]) == LowerChar(b[i])
  }

  /** Case-insensitive equality is equality of the lower-cased strings. */
  lemma EqualsIgnoreCaseIsLowerEquality(a: string, b: string)
    ensures EqualsIgnoreCase(a, b) <==> Lower(a) == Lower(b)
  {
    if Lower(a) == Lower(b) {
      forall i | 0 <= i < |a| ensures LowerChar(a[i]) == LowerChar(b[i]) {
        assert Lower(a)[i] == Lower(b)[i];
      }
    }
  }

  predicate StartsWith(s: string, prefix: string)
  {
    |prefix| <= |s| && s[..|prefix|] == prefix
  }

  /** The parts with `sep` written between each two neighbours (Java's StringBuffer loop, JavaScript's `join`). */
  function Join(parts: seq<string>, sep: string): string
  {
    if |parts| == 0 then ""
    else if |parts| == 1 then parts[0]
    else parts[0] + sep + Join(parts[1..], sep)
  }

  /** The pieces `Join` concatenates: part, separator, part, ..., part. */
  function JoinPieces(parts: seq<string>, sep: string): seq<string>
  {
    if |parts| <= 1 then parts else [parts[0], sep] + JoinPieces(parts[1..], sep)
  }

  function Concat(pieces: seq<string>): string
  {
    if pieces == [] then "" else pieces[0] + Concat(pieces[1..])
  }

  lemma {:induction false} ConcatAppend(a: seq<string>, b: seq<string>)
    ensures Concat(a + b) == Concat(a) + Concat(b)
  {
    if a == [] {
      assert a + b == b;
    } else {
      assert (a + b)[1..] == a[1..] + b;
      ConcatAppend(a[1..], b);
    }
  }

  /**
   * Joining n parts writes exactly n - 1 separators: the joined string is the
   * concatenation of 2n - 1 pieces whose even positions are the parts, in
   * order, and whose odd positions are the separator.
   */
  lemma {:induction false} JoinHasSeparatorsBetweenParts(parts: seq<string>, sep: string)
    ensures Join(parts, sep) == Concat(JoinPieces(parts, sep))
    ensures |parts| == 0 ==> JoinPieces(parts, sep) == []
    ensures |parts| > 0 ==> |JoinPieces(parts, sep)| == 2 * |parts| - 1
    ensures forall k :: 0 <= k < |parts| ==> JoinPieces(parts, sep)[2 * k] == parts[k]
    ensures forall k :: 0 <= k < |parts| - 1 ==> JoinPieces(parts, sep)[2 * k + 1] == sep
  {
    if |parts| == 0 {
    } else if |parts| == 1 {
      assert Concat(parts) == parts[0] + Concat([]);
    } else {
      var rest := parts[1..];
      JoinHasSeparatorsBetweenParts(rest, sep);
      var tail := JoinPieces(rest, sep);
      assert JoinPieces(parts, sep) == [parts[0], sep] + tail;
      ConcatAppend([parts[0], sep], tail);
      assert Concat([parts[0], sep]) == parts[0] + sep by {
        assert Concat([sep]) == sep + Concat([]);
      }
      forall k | 0 < k < |parts| ensures JoinPieces(parts, sep)[2 * k] == parts[k] {
        assert JoinPieces(parts, sep)[2 * k] == tail[2 * (k - 1)];
      }
      forall k | 0 < k < |parts| - 1 ensures JoinPieces(parts, sep)[2 * k + 1] == sep {
        assert JoinPieces(parts, sep)[2 * k + 1] == tail[2 * (k - 1) + 1];
      }
    }
  }

  /** Appending a part to a join writes one more separator before it. */
  lemma {:induction false} JoinAppend(parts: seq<string>, last: string, sep: string)
    ensures Join(parts + [last], sep) == if parts == [] then last else Join(parts, sep) + sep + last
  {
    if |parts| > 1 {
      assert (parts + [last])[1..] == parts[1..] + [last];
      JoinAppend(parts[1..], last, sep);
    } else if |parts| == 1 {
      assert (parts + [last])[1..] == [last];
    }
  }

  /** Sequence concatenation is associative. */
  lemma AppendAssociative<T>(a: seq<T>, b: seq<T>, c: seq<T>)
    ensures (a + b) + c == a + (b + c)
  {
  }

  function DigitChar(d: nat): char
    requires d < 10
  {
    ('0' as int + d) as char
  }

  /** Decimal rendering of a natural number, as JavaScript's number-to-string conversion. */
  function NatToString(n: nat): string
  {
    if n < 10 then [DigitChar(n)] else NatToString(n / 10) + [DigitChar(n % 10)]
  }

  /** The rendering is never empty, has one digit exactly below ten, and ends with the last decimal digit. */
  lemma {:induction false} NatToStringDigits(n: nat)
    ensures |NatToString(n)| >= 1
    ensures |NatToString(n)| == 1 <==> n < 10
    ensures NatToString(n)[|NatToString(n)| - 1] == DigitChar(n % 10)
  {
    if n >= 10 {
      NatToStringDigits(n / 10);
    }
  }

  /** Different numbers have different decimal renderings. */
  lemma {:induction false} NatToStringInjective(m: nat, n: nat)
    requires NatToString(m) == NatToString(n)
    ensures m == n
  {
    var r := NatToString(m);
    NatToStringDigits(m);
    NatToStringDigits(n);
    assert DigitChar(m % 10) == DigitChar(n % 10);
    assert m % 10 == n % 10;
    if m >= 10 {
      assert n >= 10;
      assert NatToString(m / 10) == r[..|r| - 1] == NatToString(n / 10);
      NatToStringInjective(m / 10, n / 10);
    }
  }

  /** A common prefix cancels in string equality. */
  lemma PrefixCancels(p: string, a: string, b: string)
    requires p + a == p + b
    ensures a == b
  {
    assert a == (p + a)[|p|..];
    assert b == (p + b)[|p|..];
  }
}
