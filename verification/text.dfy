/**
 * String helpers with the meaning of the Python built-ins the scheduler relies on:
 * str.isspace, str.strip, str.lower, str.capitalize, `in` on strings, str.split,
 * str.join, f-string formatting of an int and int() on a string.
 */
module Text {

  datatype Option<T> = None | Some(value: T)

  /** str.isspace() for one character (the whitespace set of CPython). */
  predicate IsSpace(c: char)
  {
    c == ' ' || '\t' <= c <= '\r' || '\U{1C}' <= c <= '\U{1F}' || c == '\U{85}' || c == '\U{A0}'
    || c == '\U{1680}' || '\U{2000}' <= c <= '\U{200A}' || c == '\U{2028}' || c == '\U{2029}'
    || c == '\U{202F}' || c == '\U{205F}' || c == '\U{3000}'
  }

  predicate IsDigit(c: char)
  {
    '0' <= c <= '9'
  }

  /** A character of the regular-expression class \w (letters, digits, underscore). */
  predicate IsWordChar(c: char)
  {
    'a' <= c <= 'z' || 'A' <= c <= 'Z' || IsDigit(c) || c == '_'
  }

  function DigitValue(c: char): (v: nat)
    requires IsDigit(c)
    ensures v < 10
  {
    c as int - '0' as int
  }

  function DigitChar(d: nat): (c: char)
    requires d < 10
    ensures IsDigit(c) && DigitValue(c) == d
  {
    ('0' as int + d) as char
  }

  // ---------------------------------------------------------------
  //  strip
  // ---------------------------------------------------------------

  /** str.lstrip(): drops the leading whitespace and nothing else. */
  function TrimStart(s: string): (r: string)
    ensures |r| <= |s| && r == s[|s| - |r|..]
    ensures forall i :: 0 <= i < |s| - |r| ==> IsSpace(s[i])
    ensures r == [] || !IsSpace(r[0])
  {
    if s != [] && IsSpace(s[0]) then TrimStart(s[1..]) else s
  }

  /** str.rstrip(): drops the trailing whitespace and nothing else. */
  function TrimEnd(s: string): (r: string)
    ensures |r| <= |s| && r == s[..|r|]
    ensures forall i :: |r| <= i < |s| ==> IsSpace(s[i])
    ensures r == [] || !IsSpace(r[|r| - 1])
  {
    if s != [] && IsSpace(s[|s| - 1]) then TrimEnd(s[..|s| - 1]) else s
  }

  /** str.strip() */
  function Strip(s: string): string
  {
    TrimEnd(TrimStart(s))
  }

  predicate IsStripped(s: string)
  {
    s == [] || (!IsSpace(s[0]) && !IsSpace(s[|s| - 1]))
  }

  /** strip() leaves no whitespace at either end, and everything it cuts off on either side is
      whitespace (that what remains is a slice of s is stated by TrimStart and TrimEnd). */
  lemma StripSpec(s: string)
    ensures IsStripped(Strip(s))
    ensures forall i :: 0 <= i < |s| - |TrimStart(s)| ==> IsSpace(s[i])
    ensures forall i :: |s| - |TrimStart(s)| + |Strip(s)| <= i < |s| ==> IsSpace(s[i])
  {
    var t := TrimStart(s);
    var r := TrimEnd(t);
    var k := |s| - |t|;
    assert t == s[k..] && r == t[..|r|];
    if r != [] {
      assert r[0] == t[0] && !IsSpace(t[0]);
      assert !IsSpace(r[|r| - 1]);
    }
    forall i | k + |r| <= i < |s| ensures IsSpace(s[i]) {
      assert |r| <= i - k < |t|;
      assert s[i] == t[i - k];
    }
  }

  /** A string with no surrounding whitespace is its own strip(). */
  lemma {:induction false} StripOfStripped(s: string)
    requires IsStripped(s)
    ensures Strip(s) == s
  {
  }

  /** strip() only removes characters: one absent from s is absent from s.strip(). */
  lemma StripAvoids(s: string, c: char)
    requires c !in s
    ensures c !in Strip(s)
  {
    var t := TrimStart(s);
    assert t == s[|s| - |t|..];
    assert c !in t;
    var r := TrimEnd(t);
    assert r == t[..|r|];
  }

  /** strip() is idempotent. */
  lemma StripIdempotent(s: string)
    ensures Strip(Strip(s)) == Strip(s)
  {
    StripSpec(s);
    StripOfStripped(Strip(s));
  }

  // ---------------------------------------------------------------
  //  case mapping (ASCII letters)
  // ---------------------------------------------------------------

  function LowerChar(c: char): char
  {
    if 'A' <= c <= 'Z' then (c as int + 32) as char else c
  }

  function UpperChar(c: char): char
  {
    if 'a' <= c <= 'z' then (c as int - 32) as char else c
  }

  /** str.lower() */
  function Lower(s: string): (r: string)
    ensures |r| == |s|
    ensures forall i :: 0 <= i < |s| ==> r[i] == LowerChar(s[i])
  {
    seq(|s|, i requires 0 <= i < |s| => LowerChar(s[i]))
  }

  /** str.capitalize(): first character upper case, all the others lower case. */
  function Capitalize(s: string): (r: string)
    ensures |r| == |s|
    ensures s != [] ==> r[0] == UpperChar(s[0]) && r[1..] == Lower(s[1..])
  {
    if s == [] then [] else [UpperChar(s[0])] + Lower(s[1..])
  }

  /** Python's capitalize() leaves no upper-case letter after the first character and no
      lower-case letter in the first position, and applying it twice changes nothing more. */
  lemma CapitalizeIdempotent(s: string)
    ensures Capitalize(Capitalize(s)) == Capitalize(s)
    ensures forall i :: 1 <= i < |s| ==> !('A' <= Capitalize(s)[i] <= 'Z')
    ensures s != [] ==> !('a' <= Capitalize(s)[0] <= 'z')
  {
    if s != [] {
      var r := Capitalize(s);
      assert Lower(r[1..]) == r[1..];
    }
  }

  // ---------------------------------------------------------------
  //  searching: `sub in s`
  // ---------------------------------------------------------------

  predicate StartsWith(s: string, pat: string)
  {
    |pat| <= |s| && s[..|pat|] == pat
  }

  /** pat occurs in s starting at index j. */
  predicate OccursAt(s: string, pat: string, j: int)
  {
    0 <= j && j + |pat| <= |s| && s[j..j + |pat|] == pat
  }

  lemma OccursAtTail(s: string, pat: string, j: int)
    requires s != [] && 1 <= j
    ensures OccursAt(s, pat, j) <==> OccursAt(s[1..], pat, j - 1)
  {
    if j + |pat| <= |s| {
      var a, b := s[j..j + |pat|], s[1..][j - 1..j - 1 + |pat|];
      forall k | 0 <= k < |pat| ensures a[k] == b[k] {}
      assert a == b;
    }
  }

  /** The leftmost index at which pat occurs in s, as str.find() reports it. */
  function IndexOf(s: string, pat: string): (r: Option<nat>)
    ensures r.Some? ==> OccursAt(s, pat, r.value)
    ensures r.Some? ==> forall j :: 0 <= j < r.value ==> !OccursAt(s, pat, j)
    ensures r.None? ==> forall j :: !OccursAt(s, pat, j)
    decreases |s|
  {
    if |s| < |pat| then None
    else if s[..|pat|] == pat then Some(0)
    else
      match IndexOf(s[1..], pat)
      case None =>
        assert forall j :: 1 <= j ==> (OccursAt(s, pat, j) <==> OccursAt(s[1..], pat, j - 1)) by {
          forall j | 1 <= j { OccursAtTail(s, pat, j); }
        }
        None
      case Some(k) =>
        assert forall j :: 1 <= j ==> (OccursAt(s, pat, j) <==> OccursAt(s[1..], pat, j - 1)) by {
          forall j | 1 <= j { OccursAtTail(s, pat, j); }
        }
        Some(k + 1)
  }

  /** Python's `pat in s` */
  predicate Contains(s: string, pat: string)
  {
    IndexOf(s, pat).Some?
  }

  /** s.split(pat)[0]: the part of s before the first occurrence of pat, or all of s. */
  function BeforeFirst(s: string, pat: string): (r: string)
    ensures StartsWith(s, r)
    ensures Contains(s, pat) ==> StartsWith(s[|r|..], pat)
    ensures !Contains(s, pat) ==> r == s
    ensures Contains(s, pat) ==> IndexOf(s, pat) == Some(|r|)
  {
    match IndexOf(s, pat)
    case Some(i) => s[..i]
    case None => s
  }

  /** An occurrence inside a slice is an occurrence in the whole text, shifted by the slice's
      start. */
  lemma OccursInSlice(x: string, pat: string, a: nat, b: nat, j: int)
    requires a <= b <= |x| && OccursAt(x[a..b], pat, j)
    ensures OccursAt(x, pat, a + j)
  {
    var u, v := x[a..b][j..j + |pat|], x[a + j..a + j + |pat|];
    forall k | 0 <= k < |pat| ensures u[k] == v[k] {}
    assert u == v;
  }

  /** A pattern found in a prefix of x is found in x, and its first occurrence in x ends
      within that prefix. */
  lemma FoundInPrefix(x: string, pat: string, b: nat)
    requires b <= |x| && Contains(x[..b], pat)
    ensures Contains(x, pat) && IndexOf(x, pat).value + |pat| <= b
  {
    var j := IndexOf(x[..b], pat).value;
    assert x[..b] == x[0..b];
    OccursInSlice(x, pat, 0, b, j);
  }

  /** What strip() keeps holds a pattern only if the text did. */
  lemma FoundInStrip(x: string, pat: string)
    requires Contains(Strip(x), pat)
    ensures Contains(x, pat)
  {
    StripIsSlice(x);
    FoundInSlice(x, pat, |x| - |TrimStart(x)|, Strip(x));
  }

  /** A pattern found in a slice r of x, starting at a, is found in x. */
  lemma FoundInSlice(x: string, pat: string, a: nat, r: string)
    requires a + |r| <= |x| && r == x[a..a + |r|] && Contains(r, pat)
    ensures Contains(x, pat)
  {
    var j := IndexOf(r, pat).value;
    OccursInSlice(x, pat, a, a + |r|, j);
    OccursContained(x, pat, a + j);
  }

  /** str.strip() returns a slice of its argument. */
  lemma StripIsSlice(x: string)
    ensures |x| - |TrimStart(x)| + |Strip(x)| <= |x|
    ensures Strip(x) == x[|x| - |TrimStart(x)|..|x| - |TrimStart(x)| + |Strip(x)|]
  {
    var t := TrimStart(x);
    var r := TrimEnd(t);
    PrefixOfSuffix(x, |x| - |t|, |r|);
  }

  /** A prefix of a suffix is a slice. */
  lemma PrefixOfSuffix(x: string, k: nat, m: nat)
    requires k + m <= |x|
    ensures x[k..][..m] == x[k..k + m]
  {
  }

  /** An occurrence anywhere means the search succeeds. */
  lemma OccursContained(x: string, pat: string, j: int)
    requires OccursAt(x, pat, j)
    ensures Contains(x, pat)
  {
  }

  /** s.split(pat)[0] never holds pat. */
  lemma BeforeFirstLacks(s: string, pat: string)
    requires pat != []
    ensures !Contains(BeforeFirst(s, pat), pat)
  {
    var r := BeforeFirst(s, pat);
    if Contains(s, pat) && Contains(r, pat) {
      assert r == s[..|r|];
      FoundInPrefix(s, pat, |r|);
    }
  }

  /** Concatenation associates; stated once so that proofs about long strings need not
      re-derive it element by element. */
  lemma AppendAssociates<T>(x: seq<T>, y: seq<T>, z: seq<T>)
    ensures x + (y + z) == (x + y) + z
  {
  }

  // ---------------------------------------------------------------
  //  split and join on one separator character
  // ---------------------------------------------------------------

  /** s.split(sep) for a one-character separator: always at least one piece, none holding sep. */
  function Split(s: string, sep: char): (r: seq<string>)
    ensures |r| >= 1
    ensures forall k :: 0 <= k < |r| ==> sep !in r[k]
  {
    if s == [] then [[]]
    else
      var rest := Split(s[1..], sep);
      if s[0] == sep then [[]] + rest else [[s[0]] + rest[0]] + rest[1..]
  }

  /** sep.join(parts) */
  function Join(parts: seq<string>, sep: char): string
  {
    if |parts| == 0 then []
    else if |parts| == 1 then parts[0]
    else parts[0] + [sep] + Join(parts[1..], sep)
  }

  /** A piece without the separator splits to itself. */
  lemma {:induction false} SplitNoSeparator(p: string, sep: char)
    requires sep !in p
    ensures Split(p, sep) == [p]
  {
    if p != [] {
      assert sep !in p[1..] by { assert forall c :: c in p[1..] ==> c in p; }
      SplitNoSeparator(p[1..], sep);
      assert p == [p[0]] + p[1..];
    }
  }

  /** Splitting stops at the first separator: p + sep + rest splits into p followed by the pieces of rest. */
  lemma {:induction false} SplitAtSeparator(p: string, sep: char, rest: string)
    requires sep !in p
    ensures Split(p + [sep] + rest, sep) == [p] + Split(rest, sep)
  {
    if p == [] {
      assert (p + [sep] + rest)[1..] == rest;
    } else {
      assert (p + [sep] + rest)[1..] == p[1..] + [sep] + rest;
      assert sep !in p[1..] by { assert forall c :: c in p[1..] ==> c in p; }
      SplitAtSeparator(p[1..], sep, rest);
      assert p == [p[0]] + p[1..];
    }
  }

  /** Joining the pieces of a split gives the string back. */
  lemma {:induction false} JoinSplit(s: string, sep: char)
    ensures Join(Split(s, sep), sep) == s
  {
    if s != [] {
      JoinSplit(s[1..], sep);
      var rest := Split(s[1..], sep);
      if s[0] != sep {
        if |rest| == 1 {
        } else {
          assert ([[s[0]] + rest[0]] + rest[1..])[1..] == rest[1..];
          assert rest == [rest[0]] + rest[1..];
        }
      }
    }
  }

  /** Splitting a join gives the pieces back, provided no piece holds the separator. */
  lemma {:induction false} SplitJoin(parts: seq<string>, sep: char)
    requires |parts| >= 1
    requires forall k :: 0 <= k < |parts| ==> sep !in parts[k]
    ensures Split(Join(parts, sep), sep) == parts
  {
    if |parts| == 1 {
      SplitNoSeparator(parts[0], sep);
    } else {
      SplitJoin(parts[1..], sep);
      SplitAtSeparator(parts[0], sep, Join(parts[1..], sep));
    }
  }

  /** Splitting at one separator splits the two sides independently. */
  lemma {:induction false} SplitConcat(a: string, sep: char, b: string)
    ensures Split(a + [sep] + b, sep) == Split(a, sep) + Split(b, sep)
  {
    var s := a + [sep] + b;
    if a == [] {
      assert s[0] == sep && s[1..] == b;
    } else {
      assert s[0] == a[0] && s[1..] == a[1..] + [sep] + b;
      SplitConcat(a[1..], sep, b);
    }
  }

  /** The first piece of a split is what str.split(sep)[0] returns. */
  lemma FirstPiece(p: string, sep: char, rest: string)
    requires sep !in p
    ensures Split(p + [sep] + rest, sep)[0] == p
  {
    SplitAtSeparator(p, sep, rest);
  }

  // ---------------------------------------------------------------
  //  integers: f"{n}" and int(s)
  // ---------------------------------------------------------------

  /** Left-to-right decimal value of a string of digits and underscores (underscores skipped). */
  function DecimalValue(s: string): nat
    requires forall c :: c in s ==> IsDigit(c) || c == '_'
  {
    if s == [] then 0
    else if s[|s| - 1] == '_' then DecimalValue(s[..|s| - 1])
    else 10 * DecimalValue(s[..|s| - 1]) + DigitValue(s[|s| - 1])
  }

  /** The decimal literals int() accepts: digits, single underscores between digits. */
  predicate IsDecimal(s: string)
  {
    && s != []
    && (forall c :: c in s ==> IsDigit(c) || c == '_')
    && IsDigit(s[0]) && IsDigit(s[|s| - 1])
    && forall i :: 0 <= i < |s| - 1 ==> !(s[i] == '_' && s[i + 1] == '_')
  }

  /** str(n) for a natural number: no leading zeros. */
  function NatToString(n: nat): (r: string)
    ensures |r| >= 1 && forall c :: c in r ==> IsDigit(c)
    ensures DecimalValue(r) == n
    ensures r[0] != '0' || n == 0
  {
    if n < 10 then [DigitChar(n)]
    else
      var r := NatToString(n / 10) + [DigitChar(n % 10)];
      assert r[..|r| - 1] == NatToString(n / 10);
      r
  }

  lemma NatToStringIsDecimal(n: nat)
    ensures IsDecimal(NatToString(n))
  {
    var r := NatToString(n);
    forall i | 0 <= i < |r| ensures IsDigit(r[i]) {
      assert r[i] in r;
    }
  }

  /** str(n), as an f-string renders an int. */
  function IntToString(n: int): (r: string)
    ensures r != [] && (IsDigit(r[0]) || r[0] == '-')
  {
    if n < 0 then "-" + NatToString(-n) else NatToString(n)
  }

  /** A sign followed by a decimal literal. */
  predicate SignedDecimal(t: string, sign: char)
  {
    t != [] && t[0] == sign && IsDecimal(t[1..])
  }

  /** int() on text with no surrounding whitespace: an optional sign, then a decimal literal. */
  function ReadInteger(t: string): (r: Option<int>)
    ensures r.Some? ==> t != []
    ensures IsDecimal(t) ==> r == Some(DecimalValue(t) as int)
    ensures SignedDecimal(t, '+') ==> r == Some(DecimalValue(t[1..]) as int)
    ensures SignedDecimal(t, '-') ==> r == Some(-(DecimalValue(t[1..]) as int))
    ensures r.Some? <==> IsDecimal(t) || SignedDecimal(t, '+') || SignedDecimal(t, '-')
  {
    if t != [] && (t[0] == '-' || t[0] == '+') then
      assert !IsDecimal(t) by { assert !IsDigit(t[0]); }
      if IsDecimal(t[1..]) then
        Some(if t[0] == '-' then -(DecimalValue(t[1..]) as int) else DecimalValue(t[1..]))
      else None
    else
      assert !SignedDecimal(t, '+') && !SignedDecimal(t, '-');
      if IsDecimal(t) then Some(DecimalValue(t)) else None
  }

  /** int(s): surrounding whitespace ignored, an optional sign, then a decimal literal. */
  function ParseInt(s: string): Option<int>
  {
    ReadInteger(Strip(s))
  }

  /** What int(s) accepts and the value it gives, in terms of the stripped text. */
  lemma ParseIntSpec(s: string)
    ensures ParseInt(s).Some? ==> Strip(s) != []
    ensures IsDecimal(Strip(s)) ==> ParseInt(s) == Some(DecimalValue(Strip(s)) as int)
    ensures SignedDecimal(Strip(s), '+') ==> ParseInt(s) == Some(DecimalValue(Strip(s)[1..]) as int)
    ensures SignedDecimal(Strip(s), '-') ==> ParseInt(s) == Some(-(DecimalValue(Strip(s)[1..]) as int))
    ensures ParseInt(s).Some? <==> IsDecimal(Strip(s)) || SignedDecimal(Strip(s), '+') || SignedDecimal(Strip(s), '-')
  {
    var t := Strip(s);
    assert ParseInt(s) == ReadInteger(t);
  }

  /** int(str(n)) == n */
  lemma ParseIntRoundTrip(n: int)
    ensures ParseInt(IntToString(n)) == Some(n)
  {
    var r := IntToString(n);
    var m: nat := if n < 0 then -n else n;
    var d := NatToString(m);
    assert Strip(r) == r by {
      assert r[|r| - 1] == d[|d| - 1] && d[|d| - 1] in d;
      assert !IsSpace(r[0]) && !IsSpace(r[|r| - 1]);
      StripOfStripped(r);
    }
    NatToStringIsDecimal(m);
    if n < 0 {
      assert SignedDecimal(r, '-') && r[1..] == d by {
        assert r[0] == '-' && r[1..] == d;
      }
    } else {
      assert IsDecimal(r) && r == d;
    }
  }

  /** int() accepts leading zeros. */
  lemma ParseIntLeadingZeros()
    ensures ParseInt("007") == Some(7)
  {
    var a := "007";
    StripOfStripped(a);
    assert IsDecimal(a);
    assert a[..2] == "00" && a[..2][..1] == "0" && a[..2][..1][..0] == [];
    assert DecimalValue(a[..2][..1]) == 0;
    assert DecimalValue(a[..2]) == 0;
  }

  /** int() accepts a plus sign. */
  lemma ParseIntPlusSign()
    ensures ParseInt("+7") == Some(7)
  {
    var b := "+7";
    StripOfStripped(b);
    assert b[1..] == "7" && b[1..][..0] == [];
    assert IsDecimal(b[1..]);
  }

  /** int() rejects a lone sign and doubled underscores. */
  lemma ParseIntRejects()
    ensures ParseInt("-") == None
    ensures ParseInt("1__0") == None
  {
    StripOfStripped("-");
    ReadLoneSign();
    StripOfStripped("1__0");
    ReadDoubledUnderscore();
  }

  lemma ReadLoneSign()
    ensures ReadInteger("-") == None
  {
    var t := "-";
    assert t[1..] == [] && !IsDecimal(t[1..]);
    assert !IsDecimal(t) by { assert !IsDigit(t[0]); }
  }

  lemma ReadDoubledUnderscore()
    ensures ReadInteger("1__0") == None
  {
    var t := "1__0";
    assert !IsDecimal(t) by { assert t[1] == '_' && t[2] == '_'; }
    assert t[0] == '1';
  }

  /** str(n) never contains the given non-digit, non-sign character. */
  lemma IntToStringAvoids(n: int, c: char)
    requires !IsDigit(c) && c != '-'
    ensures c !in IntToString(n)
  {
    if n < 0 {
      assert IntToString(n) == "-" + NatToString(-n);
    }
  }
}
