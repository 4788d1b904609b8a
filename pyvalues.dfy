/**
  The few Python built-ins the bot leans on: `str()` of the scalar values it
  stores (ints, strings and `None`), truthiness, and the lexicographic order
  Python and MongoDB use to compare and sort strings.
 */
module PyValues {
  import opened Wrappers

  /** A Python scalar as it reaches `str()`, a format string or an `if`. */
  datatype Value = PyNone | Int(i: int) | Text(s: string)

  /** Python truthiness: `None`, `0` and `""` are false, everything else true. */
  predicate Truthy(v: Value) {
    match v
    case PyNone => false
    case Int(i) => i != 0
    case Text(s) => s != ""
  }

  function DigitChar(d: nat): (c: char)
    requires d < 10
    ensures '0' <= c <= '9'
  {
    ('0' as int + d) as char
  }

  function DigitValue(c: char): (d: nat)
    requires '0' <= c <= '9'
    ensures d < 10 && DigitChar(d) == c
  {
    c as int - '0' as int
  }

  /** Decimal digits of a natural number, most significant first, no leading zeros. */
  function Digits(n: nat): string
    decreases n
  {
    if n < 10 then [DigitChar(n)] else Digits(n / 10) + [DigitChar(n % 10)]
  }

  /** Python's `str()` of an int, a string (itself) or `None` (the text `'None'`). */
  function Str(v: Value): string {
    match v
    case PyNone => "None"
    case Int(i) => if i < 0 then "-" + Digits(-i) else Digits(i)
    case Text(s) => s
  }

  predicate AllDigits(s: string) {
    forall k :: 0 <= k < |s| ==> '0' <= s[k] <= '9'
  }

  function ParseDigits(s: string): nat
    requires |s| > 0 && AllDigits(s)
    decreases |s|
  {
    if |s| == 1 then DigitValue(s[0])
    else 10 * ParseDigits(s[..|s| - 1]) + DigitValue(s[|s| - 1])
  }

  /** Reads back a decimal integer written by `Str`; anything else is `None`. */
  function ParseInt(s: string): Option<int> {
    if |s| > 1 && s[0] == '-' && AllDigits(s[1..]) then Some(0 - ParseDigits(s[1..]) as int)
    else if |s| > 0 && AllDigits(s) then Some(ParseDigits(s))
    else None
  }

  lemma {:induction false} DigitsRoundTrip(n: nat)
    ensures |Digits(n)| > 0 && AllDigits(Digits(n))
    ensures ParseDigits(Digits(n)) == n
  {
    if n >= 10 {
      DigitsRoundTrip(n / 10);
      var s := Digits(n);
      assert s[..|s| - 1] == Digits(n / 10);
    }
  }

  /** `str()` of an int reads back as that int: the decimal key of an id names exactly one id. */
  lemma StrIntRoundTrip(i: int)
    ensures ParseInt(Str(Int(i))) == Some(i)
  {
    if i < 0 {
      DigitsRoundTrip(-i);
      assert Str(Int(i))[1..] == Digits(-i);
    } else {
      DigitsRoundTrip(i);
    }
  }

  lemma StrIntInjective(a: int, b: int)
    ensures Str(Int(a)) == Str(Int(b)) <==> a == b
  {
    StrIntRoundTrip(a);
    StrIntRoundTrip(b);
  }

  /** The `'None'` that `str(None)` yields is never the decimal text of an id. */
  lemma NoneIsNotAnId(i: int)
    ensures Str(Int(i)) != Str(PyNone)
    ensures Str(Int(i)) != ""
  {
    StrIntRoundTrip(i);
    assert ParseInt("None") == None by {
      assert !AllDigits("None") by { assert !('0' <= "None"[0] <= '9'); }
    }
  }

  // ---------------------------------------------------------------------------
  // String order. Python compares `str` values, and MongoDB sorts string keys,
  // character by character; a proper prefix sorts first.

  predicate StrLt(a: string, b: string)
    decreases |a|
  {
    if a == [] then b != []
    else if b == [] then false
    else if a[0] != b[0] then a[0] < b[0]
    else StrLt(a[1..], b[1..])
  }

  predicate StrLe(a: string, b: string) {
    a == b || StrLt(a, b)
  }

  lemma {:induction false} StrLtIrreflexive(a: string)
    ensures !StrLt(a, a)
    decreases |a|
  {
    if a != [] {
      StrLtIrreflexive(a[1..]);
    }
  }

  lemma {:induction false} StrLtTransitive(a: string, b: string, c: string)
    requires StrLt(a, b) && StrLt(b, c)
    ensures StrLt(a, c)
    decreases |a|
  {
    if a != [] && a[0] == b[0] && b[0] == c[0] {
      StrLtTransitive(a[1..], b[1..], c[1..]);
    }
  }

  lemma {:induction false} StrLtTotal(a: string, b: string)
    ensures a == b || StrLt(a, b) || StrLt(b, a)
    decreases |a|
  {
    if a != [] && b != [] && a[0] == b[0] {
      StrLtTotal(a[1..], b[1..]);
      if a[1..] == b[1..] {
        assert a == [a[0]] + a[1..] && b == [b[0]] + b[1..];
      }
    }
  }

  lemma StrLtAsymmetric(a: string, b: string)
    ensures StrLt(a, b) ==> !StrLt(b, a)
  {
    if StrLt(a, b) && StrLt(b, a) {
      StrLtTransitive(a, b, a);
      StrLtIrreflexive(a);
    }
  }

  lemma StrLeTransitive(a: string, b: string, c: string)
    requires StrLe(a, b) && StrLe(b, c)
    ensures StrLe(a, c)
  {
    if StrLt(a, b) && StrLt(b, c) {
      StrLtTransitive(a, b, c);
    }
  }

  /** Every non-empty finite set of strings has a least element under `StrLt`. */
  lemma {:induction false} LeastExists(s: set<string>)
    requires s != {}
    ensures exists m :: m in s && forall y :: y in s ==> StrLe(m, y)
    decreases |s|
  {
    var x :| x in s;
    var rest := s - {x};
    if rest == {} {
      assert s == {x};
      assert forall y :: y in s ==> StrLe(x, y);
    } else {
      LeastExists(rest);
      var m :| m in rest && forall y :: y in rest ==> StrLe(m, y);
      var n := LeastInsert(x, m, rest);
      assert rest + {x} == s;
    }
  }

  /** The least of `rest + {x}`, given the least `m` of `rest`. */
  lemma LeastInsert(x: string, m: string, rest: set<string>) returns (n: string)
    requires m in rest && forall y :: y in rest ==> StrLe(m, y)
    ensures n in rest + {x} && forall y :: y in rest + {x} ==> StrLe(n, y)
  {
    StrLtTotal(x, m);
    if StrLt(x, m) {
      n := x;
      forall y | y in rest + {x} ensures StrLe(x, y) {
        if y != x {
          StrLeTransitive(x, m, y);
        }
      }
    } else {
      n := m;
    }
  }

  lemma {:induction false} DigitsLength(n: nat)
    ensures |Digits(n)| == 1 <==> n < 10
    ensures |Digits(n)| >= 1
    decreases n
  {
    if n >= 10 {
      DigitsLength(n / 10);
    }
  }

  /** Comparing two equal-length texts extended by one character each. */
  lemma {:induction false} StrLtSnoc(p: string, q: string, x: char, y: char)
    requires |p| == |q|
    ensures StrLt(p + [x], q + [y]) <==> StrLt(p, q) || (p == q && x < y)
    decreases |p|
  {
    if p != [] {
      assert (p + [x])[0] == p[0] && (p + [x])[1..] == p[1..] + [x];
      assert (q + [y])[0] == q[0] && (q + [y])[1..] == q[1..] + [y];
      StrLtSnoc(p[1..], q[1..], x, y);
      assert p == [p[0]] + p[1..] && q == [q[0]] + q[1..];
    }
  }

  /**
    For decimal texts of the same length, text order is number order: ids
    with equal digit counts compare as Python 2 would compare the ints.
   */
  lemma {:induction false} DigitsOrder(a: nat, b: nat)
    requires |Digits(a)| == |Digits(b)|
    ensures StrLt(Digits(a), Digits(b)) <==> a < b
    decreases a
  {
    DigitsLength(a);
    DigitsLength(b);
    if a >= 10 {
      DigitsOrder(a / 10, b / 10);
      StrLtSnoc(Digits(a / 10), Digits(b / 10), DigitChar(a % 10), DigitChar(b % 10));
      DigitsRoundTrip(a / 10);
      DigitsRoundTrip(b / 10);
      assert a == 10 * (a / 10) + a % 10 && b == 10 * (b / 10) + b % 10;
    }
  }

  /**
    Python compares the stored decimal ids as text, and text order is not
    number order once the ids differ in length: 9 < 10, yet '10' < '9'.
   */
  lemma TextOrderIsNotNumberOrder()
    ensures 9 < 10 && StrLt(Str(Int(10)), Str(Int(9)))
  {
    assert Str(Int(9)) == "9";
    assert Digits(1) == "1";
    assert Str(Int(10)) == "10";
  }
}
