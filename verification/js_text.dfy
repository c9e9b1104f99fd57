/** The three JavaScript string operations the job-list pipeline relies on:
    `toLowerCase`, `includes` and `parseInt`, each restricted to the part of
    its behaviour the page exercises. */
module JsText {

  datatype Option<+T> = None | Some(value: T)

  // ---------------------------------------------------------------------
  // toLowerCase
  // ---------------------------------------------------------------------

  /** Simple Unicode lower-case mapping for Basic Latin capitals and for the
      Cyrillic capitals U+0400..U+042F; every other character is its own
      lower case in this model. */
  function LowerChar(c: char): (r: char)
    ensures 'A' <= c <= 'Z' ==> r as int == c as int + 32
    ensures 'А' <= c <= 'Я' ==> r as int == c as int + 0x20
    ensures 'Ѐ' <= c <= 'Џ' ==> r as int == c as int + 0x50
    ensures !('A' <= c <= 'Z' || 'Ѐ' <= c <= 'Я') ==> r == c
  {
    if 'A' <= c <= 'Z' then (c as int + 32) as char
    else if 'А' <= c <= 'Я' then (c as int + 0x20) as char
    else if 'Ѐ' <= c <= 'Џ' then (c as int + 0x50) as char
    else c
  }

  /** `s.toLowerCase()`: maps every character, keeping the length. */
  function Lower(s: string): (r: string)
    ensures |r| == |s|
    ensures forall i :: 0 <= i < |s| ==> r[i] == LowerChar(s[i])
  {
    seq(|s|, i requires 0 <= i < |s| => LowerChar(s[i]))
  }

  /** A lower-case character has no upper-case partner left to map. */
  lemma LowerCharIdempotent(c: char)
    ensures LowerChar(LowerChar(c)) == LowerChar(c)
  {
  }

  /** Lowering twice is lowering once. */
  lemma LowerIdempotent(s: string)
    ensures Lower(Lower(s)) == Lower(s)
  {
    forall i | 0 <= i < |s| ensures Lower(Lower(s))[i] == Lower(s)[i] {
      LowerCharIdempotent(s[i]);
    }
  }

  // ---------------------------------------------------------------------
  // includes
  // ---------------------------------------------------------------------

  /** `s.includes(q)`: tries every starting position from the left. */
  predicate Includes(s: string, q: string)
    ensures |q| == 0 ==> Includes(s, q)
    ensures Includes(s, q) ==> |q| <= |s|
    decreases |s|
  {
    q <= s || (|s| > 0 && Includes(s[1..], q))
  }

  /** `q` occurs in `s` at position `i`. */
  predicate OccursAt(s: string, q: string, i: int)
  {
    0 <= i && i + |q| <= |s| && s[i..i + |q|] == q
  }

  /** An occurrence one position further into `s` is an occurrence in
      `s[1..]`, and the other way round. */
  lemma OccursInTail(s: string, q: string, i: int)
    requires |s| > 0 && i >= 1
    ensures OccursAt(s, q, i) <==> OccursAt(s[1..], q, i - 1)
  {
    if i + |q| <= |s| {
      assert s[1..][i - 1..i - 1 + |q|] == s[i..i + |q|];
    }
  }

  /** Where the search succeeds, `q` occurs at some position. */
  lemma {:induction false} IncludesFound(s: string, q: string) returns (i: int)
    requires Includes(s, q)
    ensures OccursAt(s, q, i)
    decreases |s|
  {
    if q <= s {
      i := 0;
      assert s[..|q|] == q;
    } else {
      var k := IncludesFound(s[1..], q);
      OccursInTail(s, q, k + 1);
      i := k + 1;
    }
  }

  /** Where `q` occurs, the search succeeds. */
  lemma {:induction false} OccursIncluded(s: string, q: string, i: int)
    requires OccursAt(s, q, i)
    ensures Includes(s, q)
    decreases i
  {
    if i == 0 {
      assert q == s[..|q|];
    } else {
      OccursInTail(s, q, i);
      OccursIncluded(s[1..], q, i - 1);
    }
  }

  /** The left-to-right search finds `q` exactly when it occurs at some
      position of `s`. */
  lemma IncludesIffOccurs(s: string, q: string)
    ensures Includes(s, q) <==> exists i :: OccursAt(s, q, i)
  {
    if Includes(s, q) {
      var i := IncludesFound(s, q);
    }
    forall i | OccursAt(s, q, i) ensures Includes(s, q) {
      OccursIncluded(s, q, i);
    }
  }

  /** A string that includes `m` includes everything `m` includes. */
  lemma IncludesTransitive(s: string, m: string, q: string)
    requires Includes(s, m) && Includes(m, q)
    ensures Includes(s, q)
  {
    var i := IncludesFound(s, m);
    var k := IncludesFound(m, q);
    assert s[i + k..i + k + |q|] == q by {
      forall j | 0 <= j < |q| ensures s[i + k..i + k + |q|][j] == q[j] {
        assert s[i..i + |m|][k + j] == m[k + j];
        assert m[k..k + |q|][j] == q[j];
      }
    }
    OccursIncluded(s, q, i + k);
  }

  /** Lowering both sides keeps an occurrence where it was. */
  lemma LowerIncludes(s: string, q: string)
    requires Includes(s, q)
    ensures Includes(Lower(s), Lower(q))
  {
    var i := IncludesFound(s, q);
    assert Lower(s)[i..i + |q|] == Lower(q) by {
      forall k | 0 <= k < |q| ensures Lower(s)[i + k] == Lower(q)[k] {
        assert s[i + k] == q[k];
      }
    }
    OccursIncluded(Lower(s), Lower(q), i);
  }

  /** Every string includes the empty string. */
  lemma IncludesEmpty(s: string)
    ensures Includes(s, "")
  {
  }

  // ---------------------------------------------------------------------
  // parseInt
  // ---------------------------------------------------------------------

  predicate IsDigit(c: char)
  {
    '0' <= c <= '9'
  }

  function DigitValue(c: char): nat
    requires IsDigit(c)
  {
    c as int - '0' as int
  }

  /** Length of the longest prefix of `s` made of decimal digits. */
  function DigitRun(s: string): (n: nat)
    ensures n <= |s|
    ensures forall i :: 0 <= i < n ==> IsDigit(s[i])
    ensures n < |s| ==> !IsDigit(s[n])
  {
    if |s| > 0 && IsDigit(s[0]) then 1 + DigitRun(s[1..]) else 0
  }

  /** Value of a string of decimal digits, most significant first. */
  function DigitsValue(d: string): nat
    requires forall i :: 0 <= i < |d| ==> IsDigit(d[i])
  {
    if |d| == 0 then 0 else 10 * DigitsValue(d[..|d| - 1]) + DigitValue(d[|d| - 1])
  }

  /** `parseInt(s)` restricted to a leading run of decimal digits: the value
      of that run, or `None` (JavaScript's NaN) when `s` does not start with
      a digit. */
  function ParseInt(s: string): (r: Option<nat>)
    ensures r.None? <==> (|s| == 0 || !IsDigit(s[0]))
  {
    var n := DigitRun(s);
    if n == 0 then None else Some(DigitsValue(s[..n]))
  }

  /** Decimal rendering of a natural number, without separators. */
  function Decimal(n: nat): (d: string)
    ensures |d| > 0
    ensures forall i :: 0 <= i < |d| ==> IsDigit(d[i])
  {
    if n < 10 then ['0' + n as char]
    else Decimal(n / 10) + ['0' + (n % 10) as char]
  }

  lemma {:induction false} DecimalValue(n: nat)
    ensures DigitsValue(Decimal(n)) == n
  {
    if n >= 10 {
      DecimalValue(n / 10);
      var d := Decimal(n);
      assert d[..|d| - 1] == Decimal(n / 10);
    }
  }

  lemma {:induction false} DigitRunOfConcat(d: string, tail: string)
    requires forall i :: 0 <= i < |d| ==> IsDigit(d[i])
    requires |tail| == 0 || !IsDigit(tail[0])
    ensures DigitRun(d + tail) == |d|
  {
    if |d| > 0 {
      assert (d + tail)[1..] == d[1..] + tail;
      DigitRunOfConcat(d[1..], tail);
    } else {
      assert d + tail == tail;
    }
  }

  /** Round trip: `parseInt` reads back a rendered number followed by any
      text that does not start with a digit. */
  lemma ParseDecimal(n: nat, tail: string)
    requires |tail| == 0 || !IsDigit(tail[0])
    ensures ParseInt(Decimal(n) + tail) == Some(n)
  {
    var d := Decimal(n);
    DigitRunOfConcat(d, tail);
    assert (d + tail)[..|d|] == d;
    DecimalValue(n);
  }
}
