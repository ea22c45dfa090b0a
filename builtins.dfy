/**
  The few Python built-ins that the solvers lean on, stated over Dafny values:
  `str.split`, `str.join`, `int` and `str` on decimal naturals, `sum`, `max`
  and `len(set(...))`, plus the exceptions they raise on malformed input.
 */
module Builtins {

  /** The Python exceptions the modelled code can raise on bad input. */
  datatype Error =
    | ValueError  // `int()` on a non-number, or unpacking a list of the wrong length
    | IndexError  // indexing past the end of a list
    | UnboundLocalError  // reading a loop variable whose loop never ran
    | OverflowError  // storing a value too large for an `array('I')` slot

  datatype Result<T> = Ok(value: T) | Err(error: Error)

  /** A Python value that may be `None`. */
  datatype Option<T> = None | Some(value: T)

  // ---------------------------------------------------------------------------
  // str.split and str.join
  // ---------------------------------------------------------------------------

  /** Every character of `s` lies outside `seps`. */
  predicate NoneOf(s: string, seps: set<char>)
  {
    forall i :: 0 <= i < |s| ==> s[i] !in seps
  }

  /** Cuts `s` at every character in `seps`: two separators in a row give an
      empty field between them, and the result always has one more field than
      `s` has separators. With `seps == {c}` this is Python's `s.split(c)`. */
  function SplitOn(s: string, seps: set<char>): (r: seq<string>)
    ensures |r| >= 1
    decreases |s|
  {
    if |s| == 0 then [""]
    else
      var rest := SplitOn(s[1..], seps);
      if s[0] in seps then [""] + rest
      else [[s[0]] + rest[0]] + rest[1..]
  }

  /** Python's `s.split(c)` for a one-character separator. */
  function Split(s: string, c: char): seq<string>
  {
    SplitOn(s, {c})
  }

  /** Python's `sep.join(parts)`. */
  function Join(parts: seq<string>, sep: string): string
  {
    if |parts| == 0 then ""
    else if |parts| == 1 then parts[0]
    else parts[0] + sep + Join(parts[1..], sep)
  }

  /** Python's whitespace characters (`str.isspace`). */
  const Whitespace: set<char> :=
    {
     '\U{0009}', '\U{000A}', '\U{000B}', '\U{000C}', '\U{000D}', '\U{001C}', '\U{001D}', '\U{001E}',
     '\U{001F}', '\U{0020}', '\U{0085}', '\U{00A0}', '\U{1680}', '\U{2000}', '\U{2001}', '\U{2002}',
     '\U{2003}', '\U{2004}', '\U{2005}', '\U{2006}', '\U{2007}', '\U{2008}', '\U{2009}', '\U{200A}',
     '\U{2028}', '\U{2029}', '\U{202F}', '\U{205F}', '\U{3000}'}

  /** The non-empty fields of `parts`, in order. */
  function NonEmpty(parts: seq<string>): (r: seq<string>)
    ensures forall i :: 0 <= i < |r| ==> r[i] != ""
  {
    if |parts| == 0 then []
    else if parts[0] == "" then NonEmpty(parts[1..])
    else [parts[0]] + NonEmpty(parts[1..])
  }

  /** Python's `s.split()`: the maximal runs of non-whitespace characters. */
  function WsSplit(s: string): seq<string>
  {
    NonEmpty(SplitOn(s, Whitespace))
  }

  /** No field of a split holds a separator. */
  lemma {:induction false} SplitOnFieldsFree(s: string, seps: set<char>)
    ensures forall i :: 0 <= i < |SplitOn(s, seps)| ==> NoneOf(SplitOn(s, seps)[i], seps)
    decreases |s|
  {
    if |s| > 0 {
      SplitOnFieldsFree(s[1..], seps);
    }
  }

  /** A string without separators is a single field. */
  lemma {:induction false} SplitOnNoSeparator(s: string, seps: set<char>)
    requires NoneOf(s, seps)
    ensures SplitOn(s, seps) == [s]
    decreases |s|
  {
    if |s| > 0 {
      SplitOnNoSeparator(s[1..], seps);
      assert [s[0]] + s[1..] == s;
    }
  }

  /** A separator cuts the string into the fields before it and those after it. */
  lemma {:induction false} SplitOnConcat(a: string, c: char, b: string, seps: set<char>)
    requires c in seps
    ensures SplitOn(a + [c] + b, seps) == SplitOn(a, seps) + SplitOn(b, seps)
    decreases |a|
  {
    if |a| == 0 {
      assert a + [c] + b == [c] + b;
      assert ([c] + b)[1..] == b;
    } else {
      assert (a + [c] + b)[1..] == a[1..] + [c] + b;
      SplitOnConcat(a[1..], c, b, seps);
    }
  }

  /** Joining the fields of a split with the separator gives back the string. */
  lemma {:induction false} JoinSplit(s: string, c: char)
    ensures Join(Split(s, c), [c]) == s
    decreases |s|
  {
    if |s| > 0 {
      JoinSplit(s[1..], c);
      var rest := Split(s[1..], c);
      if s[0] != c {
        var r := [[s[0]] + rest[0]] + rest[1..];
        assert Split(s, c) == r;
        if |rest| > 1 {
          assert r[1..] == rest[1..];
          assert Join(r, [c]) == [s[0]] + rest[0] + [c] + Join(rest[1..], [c]);
        }
        assert Join(r, [c]) == [s[0]] + Join(rest, [c]);
        assert [s[0]] + s[1..] == s;
      } else {
        assert Split(s, c) == [""] + rest;
        assert ([""] + rest)[1..] == rest;
        assert [s[0]] + s[1..] == s;
      }
    }
  }

  /** Splitting fields joined by a separator gives back the fields, provided
      no field contains a separator. */
  lemma {:induction false} SplitOnJoin(parts: seq<string>, c: char, seps: set<char>)
    requires c in seps && |parts| >= 1
    requires forall i :: 0 <= i < |parts| ==> NoneOf(parts[i], seps)
    ensures SplitOn(Join(parts, [c]), seps) == parts
    decreases |parts|
  {
    SplitOnNoSeparator(parts[0], seps);
    if |parts| > 1 {
      SplitOnJoin(parts[1..], c, seps);
      SplitOnConcat(parts[0], c, Join(parts[1..], [c]), seps);
      assert [parts[0]] + parts[1..] == parts;
    }
  }

  /** `Split` and `Join` are inverse on fields free of the separator. */
  lemma SplitJoin(parts: seq<string>, c: char)
    requires |parts| >= 1
    requires forall i :: 0 <= i < |parts| ==> c !in parts[i]
    ensures Split(Join(parts, [c]), c) == parts
  {
    forall i | 0 <= i < |parts| ensures NoneOf(parts[i], {c}) {
    }
    SplitOnJoin(parts, c, {c});
  }

  /** Fields that are non-empty are all kept by `NonEmpty`. */
  lemma {:induction false} NonEmptyKeeps(parts: seq<string>)
    requires forall i :: 0 <= i < |parts| ==> parts[i] != ""
    ensures NonEmpty(parts) == parts
    decreases |parts|
  {
    if |parts| > 0 {
      NonEmptyKeeps(parts[1..]);
      assert [parts[0]] + parts[1..] == parts;
    }
  }

  /** `NonEmpty` distributes over concatenation. */
  lemma {:induction false} NonEmptyConcat(a: seq<string>, b: seq<string>)
    ensures NonEmpty(a + b) == NonEmpty(a) + NonEmpty(b)
    decreases |a|
  {
    if |a| > 0 {
      assert (a + b)[0] == a[0];
      assert (a + b)[1..] == a[1..] + b;
      NonEmptyConcat(a[1..], b);
      if a[0] != "" {
        assert NonEmpty(a + b) == [a[0]] + (NonEmpty(a[1..]) + NonEmpty(b));
      }
    } else {
      assert a + b == b;
    }
  }

  /** Whitespace-separated tokens joined by a space split back into themselves. */
  lemma WsSplitJoin(tokens: seq<string>)
    requires forall i :: 0 <= i < |tokens| ==> tokens[i] != "" && NoneOf(tokens[i], Whitespace)
    ensures WsSplit(Join(tokens, " ")) == tokens
  {
    if |tokens| > 0 {
      assert ' ' in Whitespace;
      SplitOnJoin(tokens, ' ', Whitespace);
      assert " " == [' '];
      NonEmptyKeeps(tokens);
    } else {
      assert SplitOn("", Whitespace) == [""];
      assert [""][1..] == [];
    }
  }

  /** Whitespace separates the tokens of the two sides. */
  lemma WsSplitConcat(a: string, c: char, b: string)
    requires c in Whitespace
    ensures WsSplit(a + [c] + b) == WsSplit(a) + WsSplit(b)
  {
    SplitOnConcat(a, c, b, Whitespace);
    NonEmptyConcat(SplitOn(a, Whitespace), SplitOn(b, Whitespace));
  }

  /** Fields free of `d` joined by `c` give a string free of `d`. */
  lemma {:induction false} JoinFree(parts: seq<string>, c: char, d: char)
    requires c != d
    requires forall i :: 0 <= i < |parts| ==> d !in parts[i]
    ensures NoneOf(Join(parts, [c]), {d})
    decreases |parts|
  {
    if |parts| > 1 {
      JoinFree(parts[1..], c, d);
    }
  }

  /** Two lines without a newline, joined by one, split back into them. */
  lemma TwoLines(first: string, second: string)
    requires NoneOf(first, {'\n'}) && NoneOf(second, {'\n'})
    ensures Split(first + "\n" + second, '\n') == [first, second]
  {
    SplitOnNoSeparator(first, {'\n'});
    SplitOnNoSeparator(second, {'\n'});
    SplitOnConcat(first, '\n', second, {'\n'});
    assert first + ['\n'] + second == first + "\n" + second;
  }

  /** Joining a non-empty first field gives a non-empty string. */
  lemma JoinNonEmpty(parts: seq<string>, sep: string)
    requires |parts| >= 1 && parts[0] != ""
    ensures Join(parts, sep) != ""
  {
  }

  // ---------------------------------------------------------------------------
  // int() and str() on natural numbers
  // ---------------------------------------------------------------------------

  predicate IsDigit(ch: char)
  {
    '0' <= ch <= '9'
  }

  /** A non-empty run of ASCII decimal digits. */
  predicate IsDecimal(s: string)
  {
    |s| >= 1 && forall i :: 0 <= i < |s| ==> IsDigit(s[i])
  }

  /** The value of a string of decimal digits, most significant first. */
  function DigitsValue(s: string): nat
    requires forall i :: 0 <= i < |s| ==> IsDigit(s[i])
  {
    if |s| == 0 then 0
    else
      assert IsDigit(s[|s| - 1]);
      DigitsValue(s[..|s| - 1]) * 10 + (s[|s| - 1] as int - '0' as int)
  }

  /** Python's `int(s)`, restricted to tokens of ASCII decimal digits. */
  function Int(s: string): (r: Result<nat>)
    ensures r.Ok? <==> IsDecimal(s)
  {
    if IsDecimal(s) then Ok(DigitsValue(s)) else Err(ValueError)
  }

  function DigitChar(d: nat): (ch: char)
    requires d < 10
    ensures IsDigit(ch) && ch as int - '0' as int == d
  {
    (d + '0' as int) as char
  }

  /** Python's `str(n)` for a natural number. */
  function Str(n: nat): (r: string)
    ensures IsDecimal(r)
    ensures r[0] == '0' ==> r == "0"
  {
    if n < 10 then [DigitChar(n)] else Str(n / 10) + [DigitChar(n % 10)]
  }

  /** `int` reads back what `str` writes. */
  lemma {:induction false} IntStr(n: nat)
    ensures Int(Str(n)) == Ok(n)
  {
    if n >= 10 {
      IntStr(n / 10);
      var s := Str(n);
      assert s[..|s| - 1] == Str(n / 10);
      assert DigitsValue(s) == DigitsValue(Str(n / 10)) * 10 + n % 10;
    }
  }

  /** `str` writes back a canonical decimal that `int` read. */
  lemma {:induction false} StrInt(s: string)
    requires IsDecimal(s) && (s[0] == '0' ==> s == "0")
    ensures Str(DigitsValue(s)) == s
    decreases |s|
  {
    if |s| > 1 {
      var p := s[..|s| - 1];
      assert s != "0";
      assert p[0] == s[0] != '0';
      StrInt(p);
      DigitsValuePositive(p);
      assert p + [s[|s| - 1]] == s;
    }
  }

  /** A decimal without a leading zero denotes a positive number. */
  lemma {:induction false} DigitsValuePositive(s: string)
    requires IsDecimal(s) && s[0] != '0'
    ensures DigitsValue(s) >= 1
    decreases |s|
  {
    if |s| > 1 {
      DigitsValuePositive(s[..|s| - 1]);
    }
  }

  /** Decimal digits hold no whitespace. */
  lemma DecimalNoWhitespace(s: string)
    requires IsDecimal(s)
    ensures NoneOf(s, Whitespace) && s != ""
  {
  }

  /** Python's `1 if b else 0`, written out. */
  function Flag(b: bool): string
  {
    if b then "1" else "0"
  }

  /** Reads back a "1" or a "0". */
  function ReadFlag(s: string): Option<bool>
  {
    if s == "1" then Some(true) else if s == "0" then Some(false) else None
  }

  /** A number and a flag on one line read back as themselves. */
  lemma HeadLine(n: nat, b: bool)
    ensures Split(Str(n) + " " + Flag(b), ' ') == [Str(n), Flag(b)]
    ensures NoneOf(Str(n) + " " + Flag(b), {'\n'})
    ensures Int(Str(n)) == Ok(n) && ReadFlag(Flag(b)) == Some(b)
  {
    assert forall i :: 0 <= i < |Str(n)| ==> IsDigit(Str(n)[i]);
    assert Join([Str(n), Flag(b)], [' ']) == Str(n) + " " + Flag(b);
    SplitJoin([Str(n), Flag(b)], ' ');
    IntStr(n);
  }

  // ---------------------------------------------------------------------------
  // sum, max and the distinct elements of a list
  // ---------------------------------------------------------------------------

  /** Python's `sum(xs)`. */
  function Sum(xs: seq<nat>): nat
  {
    if |xs| == 0 then 0 else xs[0] + Sum(xs[1..])
  }

  /** The sum of a concatenation is the sum of its parts. */
  lemma {:induction false} SumConcat(a: seq<nat>, b: seq<nat>)
    ensures Sum(a + b) == Sum(a) + Sum(b)
    decreases |a|
  {
    if |a| > 0 {
      SumConcat(a[1..], b);
      assert (a + b)[1..] == a[1..] + b;
    } else {
      assert a + b == b;
    }
  }

  /** Reordering a list does not change its sum. */
  lemma {:induction false} SumPermutation(a: seq<nat>, b: seq<nat>)
    requires multiset(a) == multiset(b)
    ensures Sum(a) == Sum(b)
    decreases |a|
  {
    if |a| > 0 {
      assert a[0] in multiset(b);
      var i :| 0 <= i < |b| && b[i] == a[0];
      var rest := b[..i] + b[i + 1..];
      assert b == b[..i] + [b[i]] + b[i + 1..];
      assert a == [a[0]] + a[1..];
      assert multiset(b) == multiset(b[..i]) + multiset{b[i]} + multiset(b[i + 1..]);
      assert multiset(rest) == multiset(b[..i]) + multiset(b[i + 1..]);
      assert multiset(a) == multiset{a[0]} + multiset(a[1..]);
      assert multiset(a[1..]) == multiset(a) - multiset{a[0]};
      assert multiset(rest) == multiset(b) - multiset{b[i]};
      SumPermutation(a[1..], rest);
      SumConcat(b[..i] + [b[i]], b[i + 1..]);
      SumConcat(b[..i], [b[i]]);
      SumConcat(b[..i], b[i + 1..]);
    }
  }

  /** Python's `set(xs)`. */
  function Elems(xs: seq<nat>): set<nat>
  {
    set i | 0 <= i < |xs| :: xs[i]
  }

  /** Python's `max(xs)`; it raises ValueError on an empty list. */
  function SeqMax(xs: seq<nat>): (m: nat)
    requires |xs| >= 1
    ensures m in xs
    ensures forall i :: 0 <= i < |xs| ==> xs[i] <= m
  {
    if |xs| == 1 then xs[0]
    else
      var m := SeqMax(xs[1..]);
      if xs[0] >= m then xs[0] else m
  }

  /** Python's `max(s)` on a non-empty set. */
  function SetMax(s: set<nat>): (m: nat)
    requires s != {}
    ensures m in s
    ensures forall x :: x in s ==> x <= m
  {
    MaxExists(s);
    var m :| m in s && forall x :: x in s ==> x <= m;
    m
  }

  lemma {:induction false} MaxExists(s: set<nat>)
    requires s != {}
    ensures exists m :: m in s && forall x :: x in s ==> x <= m
    decreases |s|
  {
    var y :| y in s;
    if s != {y} {
      MaxExists(s - {y});
      var m :| m in s - {y} && forall x :: x in s - {y} ==> x <= m;
      if y >= m {
        forall x | x in s ensures x <= y {
          if x != y { assert x in s - {y}; }
        }
      } else {
        forall x | x in s ensures x <= m {
          if x != y { assert x in s - {y}; }
        }
      }
    } else {
      assert forall x :: x in s ==> x <= y;
    }
  }

  /** The naturals below `n`: Python's `set(range(n))`. */
  function Range(n: nat): (r: set<nat>)
    ensures forall i: nat :: i in r <==> i < n
  {
    if n == 0 then {} else Range(n - 1) + {n - 1}
  }

  lemma {:induction false} RangeCard(n: nat)
    ensures |Range(n)| == n
  {
    if n > 0 {
      RangeCard(n - 1);
      assert n - 1 !in Range(n - 1);
    }
  }

  /** A set of naturals below `n` has at most `n` elements. */
  lemma BelowCard(s: set<nat>, n: nat)
    requires forall x :: x in s ==> x < n
    ensures |s| <= n
  {
    RangeCard(n);
    assert s <= Range(n);
    SubsetCard(s, Range(n));
  }

  lemma {:induction false} SubsetCard<T>(a: set<T>, b: set<T>)
    requires a <= b
    ensures |a| <= |b|
    decreases |b|
  {
    if a != {} {
      var x :| x in a;
      SubsetCard(a - {x}, b - {x});
    }
  }

  /** A set with exactly one element is that element's singleton. */
  lemma Singleton<T>(s: set<T>, x: T)
    requires |s| == 1 && x in s
    ensures s == {x}
  {
    assert |s - {x}| == 0;
  }

  /** Every element of a one-element set is its only element. */
  lemma SingletonAll<T>(s: set<T>)
    requires |s| == 1
    ensures forall x :: x in s ==> s == {x}
  {
    forall x | x in s ensures s == {x} {
      Singleton(s, x);
    }
  }
}
