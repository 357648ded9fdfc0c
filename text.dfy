/** Strings as the store and the request layer treat them: the order of SQLite's
    default (BINARY) collation, LIKE '%term%' as a substring test, the comma-joined
    aggregate that GROUP_CONCAT builds and the `split(',').filter(Boolean)` that
    takes it apart again, and JavaScript's `parseInt`. */
module Text {
  import opened Common

  // ---------------------------------------------------------------------------
  // ORDER BY name: code-point order, a shorter prefix first

  predicate LexLe(a: string, b: string)
  {
    a == [] || (b != [] && (a[0] < b[0] || (a[0] == b[0] && LexLe(a[1..], b[1..]))))
  }

  lemma {:induction false} LexTotal(a: string, b: string)
    ensures LexLe(a, b) || LexLe(b, a)
  {
    if a != [] && b != [] && a[0] == b[0] {
      LexTotal(a[1..], b[1..]);
    }
  }

  lemma {:induction false} LexTrans(a: string, b: string, c: string)
    requires LexLe(a, b) && LexLe(b, c)
    ensures LexLe(a, c)
  {
    if a != [] && b != [] && c != [] && a[0] == b[0] == c[0] {
      LexTrans(a[1..], b[1..], c[1..]);
    }
  }

  lemma {:induction false} LexAntisymmetric(a: string, b: string)
    requires LexLe(a, b) && LexLe(b, a)
    ensures a == b
  {
    if a != [] && b != [] {
      LexAntisymmetric(a[1..], b[1..]);
      assert a == [a[0]] + a[1..] && b == [b[0]] + b[1..];
    }
  }

  // ---------------------------------------------------------------------------
  // Substrings, and LIKE '%term%'

  predicate OccursAt(hay: string, needle: string, i: int)
  {
    0 <= i <= |hay| - |needle| && hay[i..i + |needle|] == needle
  }

  predicate Contains(hay: string, needle: string)
  {
    exists i | 0 <= i <= |hay| - |needle| :: OccursAt(hay, needle, i)
  }

  lemma ContainsSelf(s: string, prefix: string, suffix: string)
    ensures Contains(prefix + s + suffix, s)
  {
    var h := prefix + s + suffix;
    assert OccursAt(h, s, |prefix|);
  }

  /** SQLite folds the case of ASCII letters when it compares with LIKE. */
  function LowerChar(c: char): char
  {
    if 'A' <= c <= 'Z' then (c as int + 32) as char else c
  }

  function Lower(s: string): (r: string)
    ensures |r| == |s|
  {
    seq(|s|, i requires 0 <= i < |s| => LowerChar(s[i]))
  }

  /** `value LIKE '%term%'`: `term` occurs in `value`, ASCII case ignored. */
  predicate Like(value: string, term: string)
    ensures term == [] ==> Like(value, term)
    ensures Like(value, term) ==> |term| <= |value|
  {
    assert term == [] ==> OccursAt(Lower(value), Lower(term), 0);
    Contains(Lower(value), Lower(term))
  }

  /** A value that holds the term literally matches. */
  lemma LikeLiteral(value: string, term: string, i: int)
    requires OccursAt(value, term, i)
    ensures Like(value, term)
  {
    assert OccursAt(Lower(value), Lower(term), i) by {
      forall j | 0 <= j < |term| ensures Lower(value)[i + j] == Lower(term)[j] {
        assert value[i + j] == value[i..i + |term|][j];
      }
      assert Lower(value)[i..i + |term|] == Lower(term);
    }
  }

  /** Upper or lower case in the term makes no difference. */
  lemma LikeIgnoresCase(value: string, term: string)
    ensures Like(value, term) <==> Like(value, Lower(term))
  {
    assert Lower(Lower(term)) == Lower(term);
  }

  // ---------------------------------------------------------------------------
  // GROUP_CONCAT(name) and `agg ? agg.split(',').filter(Boolean) : []`

  /** `String.prototype.split` with a one-character separator: never empty, and
      an empty piece wherever two separators meet or one stands at an end. */
  function Split(s: string, sep: char): (r: seq<string>)
    ensures |r| >= 1
    ensures forall i :: 0 <= i < |r| ==> sep !in r[i]
  {
    if s == [] then [[]]
    else if s[0] == sep then [[]] + Split(s[1..], sep)
    else
      var rest := Split(s[1..], sep);
      [[s[0]] + rest[0]] + rest[1..]
  }

  /** The parts with the separator between neighbours. */
  function Join(parts: seq<string>, sep: char): string
  {
    if |parts| == 0 then []
    else if |parts| == 1 then parts[0]
    else parts[0] + [sep] + Join(parts[1..], sep)
  }

  /** Splitting a piece that has no separator, followed by more text, glues it to
      the first piece of the rest. */
  lemma {:induction false} SplitPrefix(x: string, y: string, sep: char)
    requires sep !in x
    ensures Split(x + y, sep) == [x + Split(y, sep)[0]] + Split(y, sep)[1..]
  {
    if x != [] {
      var sy := Split(y, sep);
      SplitPrefix(x[1..], y, sep);
      assert (x + y)[1..] == x[1..] + y;
      var rest := Split(x[1..] + y, sep);
      assert rest == [x[1..] + sy[0]] + sy[1..];
      assert rest[0] == x[1..] + sy[0] && rest[1..] == sy[1..];
      assert (x + y)[0] == x[0] && x[0] != sep;
      assert Split(x + y, sep) == [[x[0]] + rest[0]] + rest[1..];
      assert [x[0]] + (x[1..] + sy[0]) == x + sy[0];
    } else {
      assert x + y == y;
      assert x + Split(y, sep)[0] == Split(y, sep)[0];
      assert Split(y, sep) == [Split(y, sep)[0]] + Split(y, sep)[1..];
    }
  }

  /** Split undoes Join when no part holds the separator. */
  lemma {:induction false} SplitJoin(parts: seq<string>, sep: char)
    requires |parts| >= 1
    requires forall i :: 0 <= i < |parts| ==> sep !in parts[i]
    ensures Split(Join(parts, sep), sep) == parts
  {
    if |parts| == 1 {
      SplitPrefix(parts[0], [], sep);
      assert parts[0] + [] == parts[0];
    } else {
      var tail := Join(parts[1..], sep);
      SplitJoin(parts[1..], sep);
      assert parts[0] + [sep] + tail == parts[0] + ([sep] + tail);
      SplitPrefix(parts[0], [sep] + tail, sep);
      assert Split([sep] + tail, sep) == [[]] + Split(tail, sep) by {
        assert ([sep] + tail)[1..] == tail;
      }
      assert parts[0] + [] == parts[0];
      assert parts == [parts[0]] + parts[1..];
    }
  }

  /** `.filter(Boolean)` on strings: drop the empty ones. */
  function NonEmpty(s: seq<string>): (r: seq<string>)
    ensures forall i :: 0 <= i < |r| ==> r[i] != [] && r[i] in s
    ensures (forall i :: 0 <= i < |s| ==> s[i] != []) ==> r == s
    ensures |r| <= |s|
  {
    if s == [] then []
    else if s[0] == [] then NonEmpty(s[1..])
    else [s[0]] + NonEmpty(s[1..])
  }

  /** GROUP_CONCAT over no rows (or only NULLs) is NULL, otherwise the values
      joined by commas. */
  function GroupConcat(values: seq<string>): (r: Option<string>)
    ensures r.None? <==> values == []
  {
    if values == [] then None else Some(Join(values, ','))
  }

  /** `agg ? agg.split(',').filter(Boolean) : []` */
  function SplitAggregate(agg: Option<string>): (r: seq<string>)
    ensures forall i :: 0 <= i < |r| ==> r[i] != [] && ',' !in r[i]
  {
    if agg.None? || agg.value == [] then [] else NonEmpty(Split(agg.value, ','))
  }

  /** The list a client receives for the tag names (or colours) that one bookmark's
      rows carried into the aggregate. */
  function FormatList(values: seq<string>): (r: seq<string>)
    ensures values == [] ==> r == []
    ensures forall i :: 0 <= i < |r| ==> r[i] != "" && ',' !in r[i]
  {
    SplitAggregate(GroupConcat(values))
  }

  predicate Clean(s: string)
  {
    s != [] && ',' !in s
  }

  /** The formatting hands back exactly the stored values when none of them is
      empty or holds a comma. */
  lemma FormatListClean(values: seq<string>)
    requires forall i :: 0 <= i < |values| ==> Clean(values[i])
    ensures FormatList(values) == values
  {
    if values != [] {
      SplitJoin(values, ',');
      assert |Join(values, ',')| >= |values[0]|;
    }
  }

  /** A tag name that holds commas comes back as several tags: the pieces
      between its commas. */
  lemma FormatListSplitsCommas(pieces: seq<string>)
    requires |pieces| >= 2 && forall i :: 0 <= i < |pieces| ==> Clean(pieces[i])
    ensures ',' in Join(pieces, ',')
    ensures FormatList([Join(pieces, ',')]) == pieces
  {
    var name := Join(pieces, ',');
    assert name == pieces[0] + [','] + Join(pieces[1..], ',');
    assert name[|pieces[0]|] == ',';
    assert Join([name], ',') == name;
    SplitJoin(pieces, ',');
  }

  // ---------------------------------------------------------------------------
  // parseInt(s) with no radix

  /** The characters JavaScript's parseInt skips before the number. */
  predicate IsJsSpace(c: char)
  {
    c == '\t' || c == '\n' || c == '\U{000B}' || c == '\U{000C}' || c == '\r' || c == ' '
    || c == '\U{00A0}' || c == '\U{1680}' || ('\U{2000}' <= c <= '\U{200A}')
    || c == '\U{2028}' || c == '\U{2029}' || c == '\U{202F}' || c == '\U{205F}'
    || c == '\U{3000}' || c == '\U{FEFF}'
  }

  function TrimStart(s: string): (r: string)
    ensures |r| <= |s| && r == s[|s| - |r|..]
    ensures r == [] || !IsJsSpace(r[0])
  {
    if s != [] && IsJsSpace(s[0]) then TrimStart(s[1..]) else s
  }

  function DigitValue(c: char, radix: int): (r: Option<int>)
    ensures r.Some? ==> 0 <= r.value < radix
  {
    var v :=
      if '0' <= c <= '9' then c as int - '0' as int
      else if 'a' <= c <= 'z' then c as int - 'a' as int + 10
      else if 'A' <= c <= 'Z' then c as int - 'A' as int + 10
      else 36;
    if v < radix then Some(v) else None
  }

  /** The length of the longest prefix made of digits of the radix. */
  function DigitRun(s: string, radix: int): (n: nat)
    ensures n <= |s|
    ensures forall i :: 0 <= i < n ==> DigitValue(s[i], radix).Some?
    ensures n < |s| ==> DigitValue(s[n], radix).None?
  {
    if s != [] && DigitValue(s[0], radix).Some? then 1 + DigitRun(s[1..], radix) else 0
  }

  /** The value of a run of digits, most significant first. */
  function DigitsValue(ds: string, radix: int): int
    requires forall i :: 0 <= i < |ds| ==> DigitValue(ds[i], radix).Some?
  {
    if ds == [] then 0
    else DigitsValue(ds[..|ds| - 1], radix) * radix + DigitValue(ds[|ds| - 1], radix).value
  }

  predicate HexPrefix(u: string)
  {
    |u| >= 2 && u[0] == '0' && (u[1] == 'x' || u[1] == 'X')
  }

  /** As many digits of the radix as there are; no digit at all is NaN (None). */
  function ParseDigits(ds: string, radix: int): Option<int>
  {
    var n := DigitRun(ds, radix);
    if n == 0 then None else Some(DigitsValue(ds[..n], radix))
  }

  /** The number after the sign: a `0x` prefix selects radix 16, otherwise 10. */
  function ParseUnsigned(u: string): Option<int>
  {
    if HexPrefix(u) then ParseDigits(u[2..], 16) else ParseDigits(u, 10)
  }

  /** parseInt: skip white space, take one sign, then the unsigned number. */
  function ParseInt(s: string): (r: Option<int>)
    ensures TrimStart(s) == [] ==> r.None?
    ensures s != [] && '1' <= s[0] <= '9' ==> r.Some?
  {
    var t := TrimStart(s);
    if t != [] && (t[0] == '-' || t[0] == '+') then
      match ParseUnsigned(t[1..])
      case None => None
      case Some(v) => Some(if t[0] == '-' then -v else v)
    else ParseUnsigned(t)
  }

  /** The decimal numeral of a natural number, as JavaScript writes it. */
  function Decimal(n: nat): (r: string)
    ensures |r| >= 1 && forall i :: 0 <= i < |r| ==> '0' <= r[i] <= '9'
  {
    var d := ['0' + (n % 10) as char];
    if n < 10 then d else Decimal(n / 10) + d
  }

  lemma {:induction false} DecimalValue(n: nat)
    ensures forall i :: 0 <= i < |Decimal(n)| ==> DigitValue(Decimal(n)[i], 10).Some?
    ensures DigitsValue(Decimal(n), 10) == n
  {
    var r := Decimal(n);
    if n >= 10 {
      DecimalValue(n / 10);
      assert r[..|r| - 1] == Decimal(n / 10);
    }
  }

  lemma {:induction false} DigitRunAll(s: string, radix: int)
    requires forall i :: 0 <= i < |s| ==> DigitValue(s[i], radix).Some?
    ensures DigitRun(s, radix) == |s|
  {
    if s != [] {
      DigitRunAll(s[1..], radix);
    }
  }

  lemma ParseUnsignedDecimal(n: nat)
    ensures ParseUnsigned(Decimal(n)) == Some(n)
  {
    var r := Decimal(n);
    DecimalValue(n);
    DigitRunAll(r, 10);
    assert !HexPrefix(r) by {
      if |r| >= 2 { assert '0' <= r[1] <= '9'; }
    }
    assert r[..|r|] == r;
    assert ParseDigits(r, 10) == Some(n);
  }

  /** parseInt reads back the numeral of any integer. */
  lemma ParseIntDecimal(n: nat)
    ensures ParseInt(Decimal(n)) == Some(n)
    ensures ParseInt("-" + Decimal(n)) == Some(-(n as int))
  {
    var r := Decimal(n);
    ParseUnsignedDecimal(n);
    assert '0' <= r[0] <= '9';
    NoSpaceNoTrim(r);
    var m := "-" + r;
    NoSpaceNoTrim(m);
    assert m[1..] == r;
  }

  lemma NoSpaceNoTrim(s: string)
    requires s != [] && !IsJsSpace(s[0])
    ensures TrimStart(s) == s
  {
  }
}
