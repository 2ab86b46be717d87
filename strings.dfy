/**
 * The JavaScript string and array built-ins the core relies on, written out:
 * `startsWith`, `replace` with a literal pattern, `split` on one character,
 * `join`, `Number.prototype.toString(radix)` on non-negative integers and
 * `toLowerCase` on ASCII letters.
 */
module Strings {

  /** `s.startsWith(prefix)`, also lodash `startsWith` and a regular expression anchored with `^`. */
  predicate StartsWith(s: string, prefix: string) {
    |prefix| <= |s| && s[..|prefix|] == prefix
  }

  /**
   * `s.replace(/pat/g, rep)` for a pattern without metacharacters: every
   * occurrence of `pat`, found from left to right and without overlap, is
   * replaced by `rep`.
   */
  function ReplaceAll(s: string, pat: string, rep: string): (r: string)
    requires pat != ""
    decreases |s|
  {
    if s == "" then ""
    else if StartsWith(s, pat) then rep + ReplaceAll(s[|pat|..], pat, rep)
    else [s[0]] + ReplaceAll(s[1..], pat, rep)
  }

  /** Replacing a one-character pattern commutes with concatenation: no occurrence straddles the seam. */
  lemma {:induction false} ReplaceCharConcat(a: string, b: string, c: char, rep: string)
    ensures ReplaceAll(a + b, [c], rep) == ReplaceAll(a, [c], rep) + ReplaceAll(b, [c], rep)
    decreases |a|
  {
    if a == "" {
      assert a + b == b;
    } else {
      assert (a + b)[0] == a[0];
      assert (a + b)[1..] == a[1..] + b;
      ReplaceCharConcat(a[1..], b, c, rep);
    }
  }

  /** A one-character pattern that does not occur leaves the text unchanged. */
  lemma {:induction false} ReplaceCharAbsent(a: string, c: char, rep: string)
    requires c !in a
    ensures ReplaceAll(a, [c], rep) == a
    decreases |a|
  {
    if a != "" {
      assert a[0] != c;
      assert c !in a[1..];
      ReplaceCharAbsent(a[1..], c, rep);
    }
  }

  /** `s.replace(/c/, d)` without the global flag: only the first occurrence of `c` is replaced. */
  function ReplaceFirst(s: string, c: char, d: char): (r: string)
    ensures |r| == |s|
    ensures c !in s ==> r == s
  {
    if s == "" then ""
    else if s[0] == c then [d] + s[1..]
    else [s[0]] + ReplaceFirst(s[1..], c, d)
  }

  /** The character replaced is the first `c`, at index `i`; everything before and after it is kept. */
  lemma {:induction false} ReplaceFirstAt(s: string, c: char, d: char, i: nat)
    requires i < |s| && s[i] == c && c !in s[..i]
    ensures ReplaceFirst(s, c, d) == s[..i] + [d] + s[i + 1..]
    decreases i
  {
    if i > 0 {
      assert s[0] == s[..i][0];
      assert s[1..][..i - 1] == s[1..i];
      assert c !in s[1..][..i - 1];
      ReplaceFirstAt(s[1..], c, d, i - 1);
      assert s[1..][i..] == s[i + 1..];
      assert s[..i] == [s[0]] + s[1..][..i - 1];
    }
  }

  /** `parts.join(sep)`. */
  function Join(parts: seq<string>, sep: string): (r: string) {
    if |parts| == 0 then ""
    else if |parts| == 1 then parts[0]
    else parts[0] + sep + Join(parts[1..], sep)
  }

  /** Joining two non-empty lists is joining each and putting one separator between them. */
  lemma {:induction false} JoinConcat(a: seq<string>, b: seq<string>, sep: string)
    requires |a| > 0 && |b| > 0
    ensures Join(a + b, sep) == Join(a, sep) + sep + Join(b, sep)
    decreases |a|
  {
    if |a| == 1 {
      assert (a + b)[1..] == b;
    } else {
      assert (a + b)[1..] == a[1..] + b;
      JoinConcat(a[1..], b, sep);
    }
  }

  /**
   * `s.split(sep)` for a one-character separator: the pieces between the
   * separators, empty pieces included; `"".split(sep)` is `[""]`.
   */
  function Split(s: string, sep: char): (r: seq<string>)
    ensures |r| >= 1
    ensures forall i :: 0 <= i < |r| ==> sep !in r[i]
    decreases |s|
  {
    if s == "" then [""]
    else
      var rest := Split(s[1..], sep);
      if s[0] == sep then [""] + rest else [[s[0]] + rest[0]] + rest[1..]
  }

  /** Joining the pieces of a split with the separator gives back the text. */
  lemma {:induction false} JoinSplit(s: string, sep: char)
    ensures Join(Split(s, sep), [sep]) == s
    decreases |s|
  {
    if s != "" {
      var rest := Split(s[1..], sep);
      JoinSplit(s[1..], sep);
      if s[0] == sep {
        assert ([""] + rest)[1..] == rest;
      } else {
        var r := [[s[0]] + rest[0]] + rest[1..];
        if |rest| == 1 {
          assert Join(rest, [sep]) == rest[0];
        } else {
          assert r[1..] == rest[1..];
          assert Join(rest, [sep]) == rest[0] + [sep] + Join(rest[1..], [sep]);
        }
      }
    }
  }

  /** A piece without the separator, the separator and the rest split into that piece and the rest's pieces. */
  lemma {:induction false} SplitAfterPiece(w: string, x: string, sep: char)
    requires sep !in w
    ensures Split(w + [sep] + x, sep) == [w] + Split(x, sep)
    decreases |w|
  {
    if w == "" {
      assert w + [sep] + x == [sep] + x;
      assert ([sep] + x)[1..] == x;
    } else {
      assert (w + [sep] + x)[1..] == w[1..] + [sep] + x;
      assert sep !in w[1..];
      SplitAfterPiece(w[1..], x, sep);
      assert [w[0]] + w[1..] == w;
    }
  }

  /** A text without the separator is a single piece. */
  lemma {:induction false} SplitWithoutSeparator(w: string, sep: char)
    requires sep !in w
    ensures Split(w, sep) == [w]
    decreases |w|
  {
    if w != "" {
      assert sep !in w[1..];
      SplitWithoutSeparator(w[1..], sep);
      assert [w[0]] + w[1..] == w;
    }
  }

  /** Splitting a join of separator-free pieces gives back the pieces. */
  lemma {:induction false} SplitJoin(parts: seq<string>, sep: char)
    requires |parts| >= 1
    requires forall i :: 0 <= i < |parts| ==> sep !in parts[i]
    ensures Split(Join(parts, [sep]), sep) == parts
    decreases |parts|
  {
    if |parts| == 1 {
      SplitWithoutSeparator(parts[0], sep);
    } else {
      SplitJoin(parts[1..], sep);
      SplitAfterPiece(parts[0], Join(parts[1..], [sep]), sep);
      assert [parts[0]] + parts[1..] == parts;
    }
  }

  /** `String.prototype.toLowerCase` on one character, for the ASCII letters. */
  function LowerChar(c: char): (r: char) {
    if 'A' <= c <= 'Z' then (c as int + 32) as char else c
  }

  /** `s.toLowerCase()` for ASCII text. */
  function ToLowerAscii(s: string): (r: string)
    ensures |r| == |s|
  {
    seq(|s|, i requires 0 <= i < |s| => LowerChar(s[i]))
  }

  /** `b` to the power `k`. */
  function Pow(b: nat, k: nat): (r: nat) {
    if k == 0 then 1 else b * Pow(b, k - 1)
  }

  const DigitChars: string := "0123456789abcdefghijklmnopqrstuvwxyz"

  /** `n.toString(radix)` for a non-negative integer `n`: the digits, most significant first, without leading zeros. */
  function NatToString(n: nat, radix: nat): (r: string)
    requires 2 <= radix <= 36
    decreases n
  {
    if n < radix then [DigitChars[n]]
    else NatToString(n / radix, radix) + [DigitChars[n % radix]]
  }

  /** `n.toString(10)` for an integer `n`. */
  function IntToDecimal(n: int): (r: string) {
    if n < 0 then "-" + NatToString(-n, 10) else NatToString(n, 10)
  }

  /** Dividing by the radix moves the bound down one power. */
  lemma DivBelowPow(n: nat, radix: nat, p: nat)
    requires 2 <= radix
    ensures n / radix < p <==> n < radix * p
  {
    var q, m := n / radix, n % radix;
    assert n == radix * q + m && 0 <= m < radix;
    if q < p {
      assert q + 1 <= p;
      assert radix * (q + 1) <= radix * p;
    } else {
      assert radix * q >= radix * p;
    }
  }

  /** `n.toString(radix)` has at most `k` digits exactly when `n` is below `radix` to the power `k`. */
  lemma {:induction false} NatToStringLength(n: nat, radix: nat, k: nat)
    requires 2 <= radix <= 36 && k >= 1
    ensures |NatToString(n, radix)| <= k <==> n < Pow(radix, k)
    decreases k
  {
    PowAtLeastBase(radix, k);
    if n >= radix {
      if k == 1 {
        assert Pow(radix, 1) == radix;
        assert NatToString(n / radix, radix) != "";
      } else {
        NatToStringLength(n / radix, radix, k - 1);
        DivBelowPow(n, radix, Pow(radix, k - 1));
      }
    }
  }

  /** A positive power of a base is at least the base. */
  lemma {:induction false} PowAtLeastBase(b: nat, k: nat)
    requires b >= 1 && k >= 1
    ensures Pow(b, k) >= b
    decreases k
  {
    if k > 1 {
      PowAtLeastBase(b, k - 1);
      assert b * Pow(b, k - 1) >= b * 1;
    }
  }
}
