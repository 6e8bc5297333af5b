/** The string operations the configuration parsers and the provenance chain rely on:
    splitting at a separator, joining with one, stripping blanks, cutting at the first
    occurrence of a character, and printing and reading decimal integers. */
module Text {
  import opened Wrappers

  // ----- blanks -----

  /** The characters that stripping removes. */
  predicate IsSpace(c: char) {
    || '\t' <= c <= '\r'
    || '\U{1C}' <= c <= ' '
    || c in {'\U{85}', '\U{A0}', '\U{1680}', '\U{2028}', '\U{2029}', '\U{202F}', '\U{205F}', '\U{3000}'}
    || '\U{2000}' <= c <= '\U{200A}'
  }

  lemma BlanksExactly(c: char)
    ensures IsSpace(c) <==>
      c in "\t\n\U{0B}\U{0C}\r\U{1C}\U{1D}\U{1E}\U{1F} \U{85}\U{A0}\U{1680}\U{2000}\U{2001}\U{2002}\U{2003}\U{2004}"
        + "\U{2005}\U{2006}\U{2007}\U{2008}\U{2009}\U{200A}\U{2028}\U{2029}\U{202F}\U{205F}\U{3000}"
  {}

  predicate AllSpace(s: string) {
    forall i | 0 <= i < |s| :: IsSpace(s[i])
  }

  /** Neither end is a blank. */
  predicate Trimmed(s: string) {
    s == "" || (!IsSpace(s[0]) && !IsSpace(s[|s| - 1]))
  }

  function TrimLeft(s: string): string {
    if s != "" && IsSpace(s[0]) then TrimLeft(s[1..]) else s
  }

  function TrimRight(s: string): string {
    if s != "" && IsSpace(s[|s| - 1]) then TrimRight(s[..|s| - 1]) else s
  }

  function Strip(s: string): string {
    TrimRight(TrimLeft(s))
  }

  lemma {:induction false} TrimLeftPadded(pad: string, s: string)
    requires AllSpace(pad)
    ensures TrimLeft(pad + s) == TrimLeft(s)
  {
    if pad == "" {
      assert pad + s == s;
    } else {
      assert (pad + s)[1..] == pad[1..] + s;
      TrimLeftPadded(pad[1..], s);
    }
  }

  lemma {:induction false} TrimRightPadded(s: string, pad: string)
    requires AllSpace(pad)
    ensures TrimRight(s + pad) == TrimRight(s)
  {
    if pad == "" {
      assert s + pad == s;
    } else {
      assert (s + pad)[..|s + pad| - 1] == s + pad[..|pad| - 1];
      TrimRightPadded(s, pad[..|pad| - 1]);
    }
  }

  /** Padding around a trimmed text is exactly what stripping takes away. */
  lemma StripPadded(left: string, core: string, right: string)
    requires AllSpace(left) && AllSpace(right) && Trimmed(core)
    ensures Strip(left + core + right) == core
  {
    assert left + core + right == left + (core + right);
    TrimLeftPadded(left, core + right);
    if core == "" {
      assert core + right == right + "";
      TrimLeftPadded(right, "");
    } else {
      TrimRightPadded(core, right);
    }
  }

  lemma StripTrimmed(core: string)
    requires Trimmed(core)
    ensures Strip(core) == core
  {}

  lemma {:induction false} TrimLeftResult(s: string) returns (l: string)
    ensures AllSpace(l) && s == l + TrimLeft(s)
    ensures TrimLeft(s) == "" || !IsSpace(TrimLeft(s)[0])
  {
    l := "";
    if s != "" && IsSpace(s[0]) {
      var m := TrimLeftResult(s[1..]);
      l := [s[0]] + m;
      assert s == [s[0]] + s[1..];
    }
  }

  lemma {:induction false} TrimRightAt(s: string) returns (n: nat)
    ensures n <= |s| && TrimRight(s) == s[..n]
    ensures (forall i | n <= i < |s| :: IsSpace(s[i])) && (n > 0 ==> !IsSpace(s[n - 1]))
  {
    n := |s|;
    if s != "" && IsSpace(s[|s| - 1]) {
      var t := s[..|s| - 1];
      n := TrimRightAt(t);
      assert t[..n] == s[..n];
      assert forall i | 0 <= i < |t| :: t[i] == s[i];
    } else {
      assert s[..n] == s;
    }
  }

  lemma TrimRightResult(s: string) returns (r: string)
    ensures AllSpace(r) && s == TrimRight(s) + r
    ensures TrimRight(s) == "" || !IsSpace(TrimRight(s)[|TrimRight(s)| - 1])
  {
    var n := TrimRightAt(s);
    r := s[n..];
  }

  /** Stripping always splits the text into blanks, a trimmed core, and blanks. */
  lemma StripResult(s: string) returns (l: string, r: string)
    ensures Trimmed(Strip(s))
    ensures AllSpace(l) && AllSpace(r) && s == l + Strip(s) + r
  {
    l := TrimLeftResult(s);
    var t := TrimLeft(s);
    r := TrimRightResult(t);
    assert s == l + (TrimRight(t) + r) == l + TrimRight(t) + r;
    var core := TrimRight(t);
    if core != "" {
      assert core[0] == t[0];
    }
  }

  // ----- split and join -----

  function Split(s: string, sep: char): (parts: seq<string>)
    ensures |parts| >= 1
  {
    if s == "" then [""]
    else if s[0] == sep then [""] + Split(s[1..], sep)
    else
      var rest := Split(s[1..], sep);
      [[s[0]] + rest[0]] + rest[1..]
  }

  function Join(parts: seq<string>, sep: char): string {
    if parts == [] then ""
    else if |parts| == 1 then parts[0]
    else parts[0] + [sep] + Join(parts[1..], sep)
  }

  lemma {:induction false} SplitWithoutSep(s: string, sep: char)
    requires sep !in s
    ensures Split(s, sep) == [s]
  {
    if s != "" {
      SplitWithoutSep(s[1..], sep);
      assert [s[0]] + s[1..] == s;
    }
  }

  /** Around a separator, the pieces are those of either side. */
  lemma {:induction false} SplitAppend(a: string, sep: char, b: string)
    ensures Split(a + [sep] + b, sep) == Split(a, sep) + Split(b, sep)
  {
    var s := a + [sep] + b;
    if a == "" {
      assert s[1..] == b;
    } else {
      var before, after := Split(a[1..], sep), Split(b, sep);
      assert s[0] == a[0] && s[1..] == a[1..] + [sep] + b;
      assert Split(s[1..], sep) == before + after by {
        SplitAppend(a[1..], sep, b);
      }
      HeadAppend(before, after, [a[0]]);
    }
  }

  lemma HeadAppend(before: seq<string>, after: seq<string>, head: string)
    requires before != []
    ensures [head + (before + after)[0]] + (before + after)[1..] == [head + before[0]] + before[1..] + after
    ensures [""] + (before + after) == [""] + before + after
  {}

  lemma SplitAtSep(a: string, sep: char, b: string)
    requires sep !in a
    ensures Split(a + [sep] + b, sep) == [a] + Split(b, sep)
  {
    SplitAppend(a, sep, b);
    SplitWithoutSep(a, sep);
  }

  /** Joining pieces that do not contain the separator is undone by splitting. */
  lemma {:induction false} SplitJoin(parts: seq<string>, sep: char)
    requires parts != []
    requires forall i | 0 <= i < |parts| :: sep !in parts[i]
    ensures Split(Join(parts, sep), sep) == parts
  {
    if |parts| == 1 {
      SplitWithoutSep(parts[0], sep);
    } else {
      SplitJoin(parts[1..], sep);
      SplitAtSep(parts[0], sep, Join(parts[1..], sep));
    }
  }

  /** And splitting is undone by joining. */
  lemma {:induction false} JoinSplit(s: string, sep: char)
    ensures Join(Split(s, sep), sep) == s
  {
    if s != "" {
      var rest := Split(s[1..], sep);
      JoinSplit(s[1..], sep);
      if s[0] == sep {
        assert ([""] + rest)[1..] == rest;
        assert Join(Split(s, sep), sep) == [sep] + s[1..];
      } else {
        JoinHead(s[0], rest, sep);
      }
    }
  }

  lemma JoinHead(c: char, parts: seq<string>, sep: char)
    requires parts != []
    ensures Join([[c] + parts[0]] + parts[1..], sep) == [c] + Join(parts, sep)
  {
    var longer := [[c] + parts[0]] + parts[1..];
    assert longer[1..] == parts[1..];
    if |parts| > 1 {
      assert [c] + parts[0] + [sep] + Join(parts[1..], sep) == [c] + (parts[0] + [sep] + Join(parts[1..], sep));
    }
  }

  lemma {:induction false} SplitPieces(s: string, sep: char)
    ensures forall i | 0 <= i < |Split(s, sep)| :: sep !in Split(s, sep)[i]
  {
    if s != "" {
      SplitPieces(s[1..], sep);
    }
  }

  /** The non-blank items of a comma-separated list, stripped, in order. */
  function Items(parts: seq<string>): seq<string> {
    if parts == [] then []
    else
      var rest, part := Items(parts[..|parts| - 1]), Strip(parts[|parts| - 1]);
      if part == "" then rest else rest + [part]
  }

  // ----- first occurrence -----

  /** The text before and after the first occurrence of `c`. */
  function Partition(s: string, c: char): (string, string)
    requires c in s
  {
    if s[0] == c then ("", s[1..])
    else
      var (l, r) := Partition(s[1..], c);
      ([s[0]] + l, r)
  }

  lemma {:induction false} PartitionAt(l: string, c: char, r: string)
    requires c !in l
    ensures c in l + [c] + r
    ensures Partition(l + [c] + r, c) == (l, r)
  {
    var s := l + [c] + r;
    assert s[|l|] == c;
    if l == "" {
      assert s[1..] == r;
    } else {
      PartitionAt(l[1..], c, r);
      assert s[1..] == l[1..] + [c] + r;
      assert [l[0]] + l[1..] == l;
    }
  }

  lemma {:induction false} PartitionResult(s: string, c: char)
    requires c in s
    ensures var (l, r) := Partition(s, c); s == l + [c] + r && c !in l
  {
    if s[0] == c {
      assert s == "" + [c] + s[1..];
    } else {
      PartitionResult(s[1..], c);
      var (l, r) := Partition(s[1..], c);
      assert s == [s[0]] + s[1..] == [s[0]] + l + [c] + r;
    }
  }

  // ----- decimal integers -----

  predicate IsDigit(c: char) { '0' <= c <= '9' }

  function PrintNat(n: nat): (s: string)
    ensures s != "" && forall i | 0 <= i < |s| :: IsDigit(s[i])
  {
    if n < 10 then [('0' as int + n) as char]
    else PrintNat(n / 10) + [('0' as int + n % 10) as char]
  }

  function PrintInt(n: int): string {
    if n < 0 then "-" + PrintNat(-n) else PrintNat(n)
  }

  function ReadNat(s: string): Option<nat> {
    if s == "" || !IsDigit(s[|s| - 1]) then None
    else
      var d := s[|s| - 1] as int - '0' as int;
      if |s| == 1 then Some(d)
      else match ReadNat(s[..|s| - 1])
        case None => None
        case Some(n) => Some(10 * n + d)
  }

  /** An optional sign and decimal digits, blanks around them allowed. */
  function ReadInt(text: string): Option<int> {
    var s := Strip(text);
    if s == "" then None
    else if s[0] == '-' then
      match ReadNat(s[1..]) case None => None case Some(n) => Some(-(n as int))
    else if s[0] == '+' then
      match ReadNat(s[1..]) case None => None case Some(n) => Some(n)
    else
      match ReadNat(s) case None => None case Some(n) => Some(n)
  }

  lemma {:induction false} ReadPrintNat(n: nat)
    ensures ReadNat(PrintNat(n)) == Some(n)
  {
    if n >= 10 {
      var s := PrintNat(n);
      assert s[..|s| - 1] == PrintNat(n / 10);
      ReadPrintNat(n / 10);
    }
  }

  lemma DigitIsPlain(c: char)
    requires IsDigit(c) || c == '-'
    ensures !IsSpace(c) && c != '+' && (IsDigit(c) ==> c != '-')
  {}

  lemma ReadUnsigned(s: string, n: nat)
    requires s != "" && ReadNat(s) == Some(n) && forall i | 0 <= i < |s| :: IsDigit(s[i])
    ensures ReadInt(s) == Some(n)
  {
    DigitIsPlain(s[0]);
    DigitIsPlain(s[|s| - 1]);
    StripTrimmed(s);
  }

  lemma ReadNegative(s: string, n: nat)
    requires s != "" && ReadNat(s) == Some(n) && forall i | 0 <= i < |s| :: IsDigit(s[i])
    ensures ReadInt("-" + s) == Some(-(n as int))
  {
    var t := "-" + s;
    DigitIsPlain('-');
    DigitIsPlain(s[|s| - 1]);
    assert t[0] == '-' && t[|t| - 1] == s[|s| - 1] && t[1..] == s;
    StripTrimmed(t);
  }

  /** Every integer survives printing and reading back. */
  lemma ReadPrintInt(n: int)
    ensures ReadInt(PrintInt(n)) == Some(n)
  {
    if n < 0 {
      ReadPrintNat(-n);
      ReadNegative(PrintNat(-n), -n);
    } else {
      ReadPrintNat(n);
      ReadUnsigned(PrintNat(n), n);
    }
  }
}
