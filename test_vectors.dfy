/** The pure helpers of fft-test-generator.py: the +/-1 square-wave test
    pattern and the C declaration written into the generated test headers.
    Float-to-text conversion (numpy's astype(str)) is not modelled: the
    items arrive already formatted. */
module TestVectors {

  /** square_wave: [((x >> 7) & 2) - 1 for x in range(count)]. */
  function SquareWave(count: nat): (w: seq<int>)
    ensures |w| == count
    ensures forall x :: 0 <= x < count ==> w[x] == 1 || w[x] == -1
    ensures forall x :: 0 <= x < count ==> (w[x] == 1 <==> (x / 256) % 2 == 1)
  {
    // (y & 2) keeps bit 1 of y = x >> 7, i.e. bit 8 of x
    seq(count, x requires 0 <= x < count => ((x / 128) % 4 / 2) * 2 - 1)
  }

  /** The wave changes sign every 256 samples. */
  lemma SquareWaveFlips(count: nat, x: nat)
    requires x + 256 < count
    ensures SquareWave(count)[x + 256] == -SquareWave(count)[x]
  {
    assert (x + 256) / 256 == x / 256 + 1;
  }

  /* ---------------------------------------------------------------------
     c_decl
     --------------------------------------------------------------------- */

  predicate IsDigit(c: char)
  {
    '0' <= c <= '9'
  }

  /** str(n) for a natural number: its decimal digits, most significant first. */
  function Decimal(n: nat): (d: string)
    ensures |d| >= 1 && forall i :: 0 <= i < |d| ==> IsDigit(d[i])
    decreases n
  {
    var digit := [('0' as int + n % 10) as char];
    if n < 10 then digit else Decimal(n / 10) + digit
  }

  /** The value of a string of decimal digits. */
  function ParseDecimal(d: string): nat
    requires forall i :: 0 <= i < |d| ==> IsDigit(d[i])
  {
    if d == [] then 0 else 10 * ParseDecimal(d[..|d| - 1]) + DigitValue(d[|d| - 1])
  }

  function DigitValue(c: char): (v: nat)
    requires IsDigit(c)
    ensures v < 10
  {
    c as int - '0' as int
  }

  lemma {:induction false} DecimalRoundTrip(n: nat)
    ensures ParseDecimal(Decimal(n)) == n
    decreases n
  {
    var d := Decimal(n);
    if n >= 10 {
      DecimalRoundTrip(n / 10);
      assert d[..|d| - 1] == Decimal(n / 10);
    }
  }

  /** sep.join(items). */
  function Join(items: seq<string>, sep: string): string
  {
    if items == [] then "" else if |items| == 1 then items[0] else items[0] + sep + Join(items[1..], sep)
  }

  function Count(s: string, c: char): nat
  {
    if s == [] then 0 else (if s[0] == c then 1 else 0) + Count(s[1..], c)
  }

  lemma {:induction false} CountAppend(a: string, b: string, c: char)
    ensures Count(a + b, c) == Count(a, c) + Count(b, c)
  {
    if a != [] {
      assert (a + b)[0] == a[0] && (a + b)[1..] == a[1..] + b;
      CountAppend(a[1..], b, c);
    } else {
      assert a + b == b;
    }
  }

  /** Joining n comma-free items with ", " yields exactly n - 1 commas. */
  lemma {:induction false} JoinCommas(items: seq<string>)
    requires |items| >= 1
    requires forall k :: 0 <= k < |items| ==> ',' !in items[k]
    ensures Count(Join(items, ", "), ',') == |items| - 1
    decreases |items|
  {
    CommaFree(items[0]);
    if |items| > 1 {
      JoinCommas(items[1..]);
      CountAppend(items[0], ", ", ',');
      CountAppend(items[0] + ", ", Join(items[1..], ", "), ',');
      assert Count(", ", ',') == 1 by {
        assert ", "[1..] == " " && " "[1..] == "";
      }
      assert Join(items, ", ") == items[0] + ", " + Join(items[1..], ", ");
    }
  }

  lemma {:induction false} CommaFree(s: string)
    requires ',' !in s
    ensures Count(s, ',') == 0
  {
    if s != [] {
      assert s[0] != ',' && ',' !in s[1..];
      CommaFree(s[1..]);
    }
  }

  lemma {:induction false} NoCharJoin(items: seq<string>, sep: string, c: char)
    requires c !in sep && forall k :: 0 <= k < |items| ==> c !in items[k]
    ensures c !in Join(items, sep)
    decreases |items|
  {
    if |items| > 1 { NoCharJoin(items[1..], sep, c); }
  }

  /** The text after the first c (empty if c does not occur). */
  function After(s: string, c: char): (r: string)
    ensures |r| <= |s|
  {
    if s == [] then [] else if s[0] == c then s[1..] else After(s[1..], c)
  }

  /** The text before the first c (all of s if c does not occur). */
  function Before(s: string, c: char): string
  {
    if s == [] then [] else if s[0] == c then [] else [s[0]] + Before(s[1..], c)
  }

  lemma {:induction false} AfterAppend(a: string, b: string, c: char)
    requires c !in a
    ensures After(a + b, c) == After(b, c)
  {
    if a != [] {
      assert (a + b)[0] == a[0] && (a + b)[1..] == a[1..] + b;
      AfterAppend(a[1..], b, c);
    } else {
      assert a + b == b;
    }
  }

  lemma AfterFirst(x: string, c: char)
    ensures After([c] + x, c) == x
  {
    assert ([c] + x)[0] == c && ([c] + x)[1..] == x;
  }

  lemma {:induction false} BeforeAppend(a: string, b: string, c: char)
    requires c !in a
    ensures Before(a + [c] + b, c) == a
  {
    if a != [] {
      assert (a + [c] + b)[1..] == a[1..] + [c] + b;
      BeforeAppend(a[1..], b, c);
    } else {
      assert (a + [c] + b)[0] == c;
    }
  }

  /** c_decl(name, data): "static const float name[n] = {item, item, ...};\n". */
  function CDecl(name: string, items: seq<string>): string
  {
    "static const float " + name + "[" + Decimal(|items|) + "] = {" + Join(items, ", ") + "};\n"
  }

  /** The text between the first open and the next close delimiter. */
  lemma Between(head: string, body: string, tail: string, open: char, close: char)
    requires open !in head && close !in body
    ensures Before(After(head + [open] + body + [close] + tail, open), close) == body
  {
    assert head + [open] + body + [close] + tail == head + ([open] + (body + [close] + tail));
    AfterAppend(head, [open] + (body + [close] + tail), open);
    AfterFirst(body + [close] + tail, open);
    BeforeAppend(body, tail, close);
  }

  lemma Regroup(a: string, b: string, open: char, body: string, close: char, tail: string)
    ensures a + (b + [open]) + body + ([close] + tail) == (a + b) + [open] + body + [close] + tail
  {
  }

  /** The array size written between the brackets is len(data). */
  lemma CDeclSize(name: string, items: seq<string>)
    requires '[' !in name
    ensures var size := Before(After(CDecl(name, items), '['), ']');
      (forall i :: 0 <= i < |size| ==> IsDigit(size[i])) && ParseDecimal(size) == |items|
  {
    var d := Decimal(|items|);
    var tail := " = {" + Join(items, ", ") + "};\n";
    assert CDecl(name, items) == ("static const float " + name) + ['['] + d + [']'] + tail;
    assert ']' !in d;
    Between("static const float " + name, d, tail, '[', ']');
    DecimalRoundTrip(|items|);
  }

  /** The text of c_decl before its opening brace. */
  function DeclHead(name: string, n: nat): string
  {
    "static const float " + name + "[" + Decimal(n) + "] = "
  }

  lemma HeadFree(name: string, n: nat)
    requires '{' !in name
    ensures '{' !in DeclHead(name, n)
  {
    var d := Decimal(n);
    assert '{' !in d && '{' !in "static const float " && '{' !in "[" && '{' !in "] = ";
  }

  lemma DeclShape(name: string, items: seq<string>)
    ensures CDecl(name, items) == DeclHead(name, |items|) + ['{'] + Join(items, ", ") + ['}'] + ";\n"
  {
    assert "] = {" == "] = " + ['{'] && "};\n" == ['}'] + ";\n";
    Regroup("static const float " + name + "[" + Decimal(|items|), "] = ", '{', Join(items, ", "), '}', ";\n");
  }

  /** The braces hold the items joined by ", ": with comma-free items that is
      exactly len(data) items and len(data) - 1 commas, and nothing at all
      for empty data. */
  lemma CDeclItems(name: string, items: seq<string>)
    requires '{' !in name
    requires forall k :: 0 <= k < |items| ==> ',' !in items[k] && '}' !in items[k]
    ensures var body := Before(After(CDecl(name, items), '{'), '}');
      body == Join(items, ", ")
      && (|items| == 0 ==> body == "")
      && (|items| >= 1 ==> Count(body, ',') == |items| - 1)
  {
    HeadFree(name, |items|);
    DeclShape(name, items);
    NoCharJoin(items, ", ", '}');
    Between(DeclHead(name, |items|), Join(items, ", "), ";\n", '{', '}');
    if |items| >= 1 {
      JoinCommas(items);
    }
  }
}
