/**
 * The output side of ipcl (writer/writer.go): rendering a record as text,
 * either as one separated line per record after a header line (csv, tsv)
 * or as a labelled block of lines per record (the default).
 *
 * The output stream is a Sink holding the lines written so far; every
 * Fprintf call of the source writes one line ending in "\n", which the
 * Sink stores without its newline. net.IP's String method is library
 * formatting and is passed in as the function `ipString`.
 */
module Writer {
  import opened Parser

  /** The column names, in output order. */
  const Headers: seq<string> :=
    ["source_cidr", "network", "mask", "host_num", "min_address", "max_address", "broadcast"]

  /** The exported fields of a CIDRInfo value (Parser.CidrInfo), as the writers receive it. */
  datatype CidrRecord = CidrRecord(
    srcCidr: string, network: Address, mask: Address, hostNum: int,
    min: Address, max: Address, broadcast: Address)

  /**
   * The column names are seven distinct names, none of which holds a
   * separator, so the header line of a separated writer has seven columns.
   */
  lemma HeaderColumns()
    ensures |Headers| == 7
    ensures forall i, j :: 0 <= i < j < |Headers| ==> Headers[i] != Headers[j]
    ensures Free(Headers, ',') && Free(Headers, '\t')
  {
    HeadersFree(',');
    HeadersFree('\t');
  }

  lemma HeadersFree(c: char)
    requires c == ',' || c == '\t'
    ensures Free(Headers, c)
  {
  }

  // ---------------------------------------------------------------------------
  // Decimal numbers

  predicate IsDigit(c: char)
  {
    '0' <= c <= '9'
  }

  predicate IsDigits(s: string)
  {
    forall i :: 0 <= i < |s| ==> IsDigit(s[i])
  }

  function DigitChar(d: nat): (c: char)
    requires d < 10
    ensures IsDigit(c)
  {
    ('0' as int + d) as char
  }

  function DigitOf(c: char): (d: nat)
  {
    if IsDigit(c) then c as int - '0' as int else 0
  }

  /** The decimal digits of i, most significant first; none for 0. */
  function DecimalDigits(i: nat): (s: string)
  {
    if i == 0 then [] else DecimalDigits(i / 10) + [DigitChar(i % 10)]
  }

  /** The decimal notation of i that itod produces: "0" for 0, else the digits. */
  function DecimalString(i: nat): (s: string)
  {
    if i == 0 then "0" else DecimalDigits(i)
  }

  /** A string of digits read in base 10. */
  function DecimalValue(s: string): (v: nat)
  {
    if s == [] then 0 else 10 * DecimalValue(s[..|s| - 1]) + DigitOf(s[|s| - 1])
  }

  /** Canonical notation: digits only, and no leading '0' unless the number is 0. */
  predicate IsCanonical(s: string)
  {
    s != [] && IsDigits(s) && (s[0] == '0' ==> s == "0")
  }

  /** strconv.Itoa and fmt's %d on an int: a '-' before the digits of a negative number. */
  function IntString(n: int): (s: string)
  {
    if n < 0 then "-" + DecimalString(-n) else DecimalString(n)
  }

  /**
   * itod (writer/writer.go:100-114): the digits are written backwards into a
   * 32-byte buffer from its end; the input is a Go uint, so below 2^64.
   */
  method Itod(i: nat) returns (s: string)
    requires i < 0x1_0000_0000_0000_0000
    ensures s == DecimalString(i)
  {
    if i == 0 {
      return "0";
    }
    var b := new char[32](_ => 0 as char);
    var bp := b.Length;
    var n: nat := i;
    UintDigits(i);
    while n > 0
      invariant 0 <= bp <= b.Length && |DecimalDigits(n)| <= bp
      invariant DecimalDigits(i) == DecimalDigits(n) + b[bp..]
      decreases n
    {
      bp := bp - 1;
      b[bp] := DigitChar(n % 10);
      n := n / 10;
    }
    assert DecimalDigits(n) == [];
    s := b[bp..];
  }

  function Pow10(n: nat): (r: nat)
    ensures r >= 1
  {
    if n == 0 then 1 else 10 * Pow10(n - 1)
  }

  lemma {:induction false} Pow10Add(a: nat, b: nat)
    ensures Pow10(a + b) == Pow10(a) * Pow10(b)
  {
    if a > 0 {
      Pow10Add(a - 1, b);
    }
  }

  /** A number below 10^k has at most k decimal digits. */
  lemma {:induction false} DigitsLength(i: nat, k: nat)
    requires i < Pow10(k)
    ensures |DecimalDigits(i)| <= k
  {
    if i > 0 {
      DigitsLength(i / 10, k - 1);
    }
  }

  /** A Go uint has at most 20 decimal digits, so itod's 32-byte buffer never overflows. */
  lemma UintDigits(i: nat)
    requires i < 0x1_0000_0000_0000_0000
    ensures |DecimalDigits(i)| <= 20
  {
    assert Pow10(5) == 100000;
    Pow10Add(5, 5);
    Pow10Add(10, 10);
    DigitsLength(i, 20);
  }

  /** itod's output: "0" for 0, otherwise canonical digits that read back as i. */
  lemma DecimalStringSpec(i: nat)
    ensures i == 0 ==> DecimalString(i) == "0"
    ensures IsCanonical(DecimalString(i))
    ensures DecimalValue(DecimalString(i)) == i
  {
    if i > 0 {
      DigitsShape(i);
      DigitsAreDigits(i);
    }
  }

  lemma {:induction false} DigitsShape(i: nat)
    requires i > 0
    ensures DecimalDigits(i) != [] && DecimalDigits(i)[0] != '0'
    ensures DecimalValue(DecimalDigits(i)) == i
  {
    var init, c := DecimalDigits(i / 10), DigitChar(i % 10);
    assert DecimalDigits(i) == init + [c];
    assert (init + [c])[..|init|] == init;
    if i / 10 == 0 {
      assert init == [];
    } else {
      DigitsShape(i / 10);
    }
  }

  lemma {:induction false} DigitsAreDigits(i: nat)
    ensures IsDigits(DecimalDigits(i))
  {
    if i > 0 {
      DigitsAreDigits(i / 10);
    }
  }

  /** Every canonical digit string is itod of its value: the notation is unique. */
  lemma {:induction false} DecimalOfValue(s: string)
    requires IsCanonical(s)
    ensures DecimalString(DecimalValue(s)) == s
  {
    if s != "0" {
      DigitsOfValue(s);
    }
  }

  lemma {:induction false} DigitsOfValue(s: string)
    requires s != [] && IsDigits(s) && s[0] != '0'
    ensures DecimalValue(s) > 0 && DecimalDigits(DecimalValue(s)) == s
  {
    var init, c := s[..|s| - 1], s[|s| - 1];
    var v, d := DecimalValue(s), DigitOf(c);
    assert s == init + [c];
    assert DigitChar(d) == c;
    assert v == 10 * DecimalValue(init) + d;
    if init == [] {
      assert c == s[0] && d > 0;
      assert v == d;
      assert DecimalDigits(v) == DecimalDigits(0) + [DigitChar(d)];
    } else {
      DigitsOfValue(init);
      assert v / 10 == DecimalValue(init) && v % 10 == d;
    }
  }

  /** Decimal notation uses digits only, so never a separator or a dot. */
  lemma DecimalStringDigits(i: nat)
    ensures IsDigits(DecimalString(i))
  {
    DecimalStringSpec(i);
  }

  // ---------------------------------------------------------------------------
  // Joining and splitting

  /** strings.Join: the parts with sep between each two of them. */
  function Join(parts: seq<string>, sep: string): (s: string)
  {
    if |parts| == 0 then ""
    else if |parts| == 1 then parts[0]
    else Join(parts[..|parts| - 1], sep) + sep + parts[|parts| - 1]
  }

  /** strings.Split around a one-character separator: the pieces between the separators. */
  function Split(s: string, c: char): (r: seq<string>)
    ensures |r| >= 1
  {
    if s == [] then [""]
    else
      var r := Split(s[..|s| - 1], c);
      if s[|s| - 1] == c then r + [""]
      else r[..|r| - 1] + [r[|r| - 1] + [s[|s| - 1]]]
  }

  /** How many times c occurs in s. */
  function Count(c: char, s: string): (n: nat)
  {
    if s == [] then 0 else Count(c, s[..|s| - 1]) + (if s[|s| - 1] == c then 1 else 0)
  }

  /** No part contains the character c. */
  predicate Free(parts: seq<string>, c: char)
  {
    forall k :: 0 <= k < |parts| ==> c !in parts[k]
  }

  lemma {:induction false} SplitPlain(p: string, c: char)
    requires c !in p
    ensures Split(p, c) == [p]
  {
    if p != [] {
      assert p[..|p| - 1] + [p[|p| - 1]] == p;
      SplitPlain(p[..|p| - 1], c);
    }
  }

  /** Splitting x, a separator and a piece free of it: the pieces of x, then that piece. */
  lemma {:induction false} SplitAppend(x: string, c: char, p: string)
    requires c !in p
    ensures Split(x + [c] + p, c) == Split(x, c) + [p]
  {
    if p == [] {
      assert x + [c] + p == x + [c];
      assert (x + [c])[..|x|] == x;
    } else {
      var q := p[..|p| - 1];
      assert x + [c] + p == (x + [c] + q) + [p[|p| - 1]];
      assert (x + [c] + p)[..|x + [c] + p| - 1] == x + [c] + q;
      assert q + [p[|p| - 1]] == p;
      SplitAppend(x, c, q);
    }
  }

  /** Split undoes Join when no part contains the separator. */
  lemma {:induction false} SplitJoin(parts: seq<string>, c: char)
    requires |parts| >= 1 && Free(parts, c)
    ensures Split(Join(parts, [c]), c) == parts
  {
    var n := |parts|;
    if n == 1 {
      SplitPlain(parts[0], c);
    } else {
      var init := parts[..n - 1];
      SplitJoin(init, c);
      SplitAppend(Join(init, [c]), c, parts[n - 1]);
      assert init + [parts[n - 1]] == parts;
    }
  }

  lemma {:induction false} CountConcat(c: char, x: string, y: string)
    ensures Count(c, x + y) == Count(c, x) + Count(c, y)
  {
    if y != [] {
      assert (x + y)[..|x + y| - 1] == x + y[..|y| - 1];
      CountConcat(c, x, y[..|y| - 1]);
    } else {
      assert x + y == x;
    }
  }

  lemma {:induction false} CountAbsent(c: char, s: string)
    requires c !in s
    ensures Count(c, s) == 0
  {
    if s != [] {
      CountAbsent(c, s[..|s| - 1]);
    }
  }

  /** Joining n parts free of c around c puts exactly n - 1 copies of c into the text. */
  lemma {:induction false} CountJoin(parts: seq<string>, c: char)
    requires |parts| >= 1 && Free(parts, c)
    ensures Count(c, Join(parts, [c])) == |parts| - 1
  {
    var n := |parts|;
    CountAbsent(c, parts[n - 1]);
    if n > 1 {
      var init := parts[..n - 1];
      CountJoin(init, c);
      CountConcat(c, Join(init, [c]), [c]);
      CountConcat(c, Join(init, [c]) + [c], parts[n - 1]);
    }
  }

  // ---------------------------------------------------------------------------
  // The mask in dotted decimal

  /** itod of every byte, in order. */
  function Decimals(mask: Address): (r: seq<string>)
    ensures |r| == |mask|
  {
    if mask == [] then [] else Decimals(mask[..|mask| - 1]) + [DecimalString(mask[|mask| - 1])]
  }

  lemma {:induction false} DecimalsAt(mask: Address, k: nat)
    requires k < |mask|
    ensures Decimals(mask)[k] == DecimalString(mask[k])
  {
    var n := |mask|;
    if k < n - 1 {
      DecimalsAt(mask[..n - 1], k);
    }
  }

  /** What mask2string produces: the decimal bytes joined by dots. */
  function MaskString(mask: Address): (s: string)
  {
    Join(Decimals(mask), ".")
  }

  /** mask2string (writer/writer.go:88-98): each byte in decimal, a dot after all but the last. */
  method Mask2String(mask: Address) returns (s: string)
    ensures s == MaskString(mask)
  {
    var buf := "";
    for i := 0 to |mask|
      invariant buf == Join(Decimals(mask[..i]), ".") + (if 0 < i < |mask| then "." else "")
    {
      var d := Itod(mask[i]);
      assert mask[..i + 1][..i] == mask[..i];
      assert Decimals(mask[..i + 1]) == Decimals(mask[..i]) + [d];
      assert Decimals(mask[..i + 1])[..i] == Decimals(mask[..i]);
      buf := buf + d;
      if i < |mask| - 1 {
        buf := buf + ".";
      }
    }
    assert mask[..|mask|] == mask;
    s := buf;
  }

  lemma DecimalsFree(mask: Address, c: char)
    requires !IsDigit(c)
    ensures Free(Decimals(mask), c)
  {
    forall k | 0 <= k < |mask|
      ensures c !in Decimals(mask)[k]
    {
      DecimalsAt(mask, k);
      DecimalStringDigits(mask[k]);
    }
  }

  /** A 4-byte mask is written as four decimal fields, in byte order, around exactly three dots. */
  lemma MaskFields(mask: Address)
    requires |mask| == 4
    ensures Count('.', MaskString(mask)) == 3
    ensures Split(MaskString(mask), '.')
      == [DecimalString(mask[0]), DecimalString(mask[1]), DecimalString(mask[2]), DecimalString(mask[3])]
  {
    var parts := Decimals(mask);
    DecimalsAt(mask, 0);
    DecimalsAt(mask, 1);
    DecimalsAt(mask, 2);
    DecimalsAt(mask, 3);
    assert parts == [DecimalString(mask[0]), DecimalString(mask[1]), DecimalString(mask[2]), DecimalString(mask[3])];
    DecimalsFree(mask, '.');
    CountJoin(parts, '.');
    SplitJoin(parts, '.');
  }

  // ---------------------------------------------------------------------------
  // The output stream

  /** The lines written to an io.Writer so far, each without its "\n". */
  class Sink {
    var lines: seq<string>

    constructor ()
      ensures lines == []
    {
      lines := [];
    }

    /** One Fprintf call whose format ends in "\n". */
    method WriteLine(line: string)
      modifies this
      ensures lines == old(lines) + [line]
    {
      lines := lines + [line];
    }
  }

  // ---------------------------------------------------------------------------
  // What each writer writes for a record

  /** The seven values of a record, in header order. */
  function Fields(c: CidrRecord, ipString: Address -> string): (r: seq<string>)
    ensures |r| == |Headers|
  {
    [c.srcCidr, ipString(c.network), MaskString(c.mask), IntString(c.hostNum),
     ipString(c.min), ipString(c.max), ipString(c.broadcast)]
  }

  /** writeLine's text: the fields joined by the separator. */
  function Line(c: CidrRecord, sep: string, ipString: Address -> string): (s: string)
  {
    Join(Fields(c, ipString), sep)
  }

  /** writeSingle's lines (writer/writer.go:44-53): seven labelled values and a blank line. */
  function Block(c: CidrRecord, ipString: Address -> string): (r: seq<string>)
    ensures |r| == 8
  {
    [Headers[0] + " : " + c.srcCidr,
     Headers[1] + "     : " + ipString(c.network),
     Headers[2] + "        : " + MaskString(c.mask),
     Headers[3] + "    : " + IntString(c.hostNum),
     Headers[4] + " : " + ipString(c.min),
     Headers[5] + " : " + ipString(c.max),
     Headers[6] + "   : " + ipString(c.broadcast),
     ""]
  }

  /** What the separated-values writer writes for the records after its header. */
  function SepLines(cidrs: seq<CidrRecord>, sep: string, ipString: Address -> string): (r: seq<string>)
    ensures |r| == |cidrs|
  {
    seq(|cidrs|, k requires 0 <= k < |cidrs| => Line(cidrs[k], sep, ipString))
  }

  /** What the plain writer writes for the records: their blocks one after another. */
  function PlainLines(cidrs: seq<CidrRecord>, ipString: Address -> string): (r: seq<string>)
  {
    if cidrs == [] then []
    else PlainLines(cidrs[..|cidrs| - 1], ipString) + Block(cidrs[|cidrs| - 1], ipString)
  }

  lemma PlainLinesStep(cidrs: seq<CidrRecord>, i: nat, ipString: Address -> string)
    requires i < |cidrs|
    ensures PlainLines(cidrs[..i + 1], ipString) == PlainLines(cidrs[..i], ipString) + Block(cidrs[i], ipString)
  {
    assert cidrs[..i + 1][..i] == cidrs[..i];
  }

  lemma AppendAssoc(a: seq<string>, b: seq<string>, c: seq<string>)
    ensures (a + b) + c == a + (b + c)
  {
  }

  /** Appending eight lines one at a time appends them as a block. */
  lemma AppendEight(a: seq<string>, b: seq<string>)
    requires |b| == 8
    ensures a + [b[0]] + [b[1]] + [b[2]] + [b[3]] + [b[4]] + [b[5]] + [b[6]] + [b[7]] == a + b
  {
  }

  /** n spaces. */
  function Spaces(n: nat): (s: string)
    ensures |s| == n
  {
    if n == 0 then "" else Spaces(n - 1) + " "
  }

  /**
   * Every labelled line is the column name padded with spaces to 12
   * characters, then ": " and the same value the separated writer puts in
   * that column.
   */
  lemma BlockLabels(c: CidrRecord, ipString: Address -> string, k: nat)
    requires k < 7
    ensures |Headers[k]| <= 12
    ensures Block(c, ipString)[k] == Headers[k] + Spaces(12 - |Headers[k]|) + ": " + Fields(c, ipString)[k]
    ensures Block(c, ipString)[7] == ""
  {
    var f := Fields(c, ipString);
    if k == 0 || k == 4 || k == 5 {
      assert |Headers[k]| == 11;
      Relabel(Headers[k], " : ", 1, f[k]);
    } else if k == 1 {
      Relabel(Headers[k], "     : ", 5, f[k]);
    } else if k == 2 {
      Relabel(Headers[k], "        : ", 8, f[k]);
    } else if k == 3 {
      Relabel(Headers[k], "    : ", 4, f[k]);
    } else {
      Relabel(Headers[k], "   : ", 3, f[k]);
    }
  }

  lemma Relabel(name: string, pad: string, n: nat, value: string)
    requires pad == Spaces(n) + ": "
    ensures name + pad + value == name + Spaces(n) + ": " + value
  {
  }

  /** The plain writer writes 8 lines per record, record k's block at lines 8k to 8k + 7. */
  lemma {:induction false} PlainLayout(cidrs: seq<CidrRecord>, ipString: Address -> string)
    ensures |PlainLines(cidrs, ipString)| == 8 * |cidrs|
    ensures forall k, j :: 0 <= k < |cidrs| && 0 <= j < 8 ==>
      PlainLines(cidrs, ipString)[8 * k + j] == Block(cidrs[k], ipString)[j]
  {
    if cidrs != [] {
      var n := |cidrs|;
      var init := cidrs[..n - 1];
      PlainLayout(init, ipString);
      forall k, j | 0 <= k < n && 0 <= j < 8
        ensures PlainLines(cidrs, ipString)[8 * k + j] == Block(cidrs[k], ipString)[j]
      {
        if k < n - 1 {
          assert cidrs[k] == init[k];
        }
      }
    }
  }

  /** The separated-values header and a record's line both split back into their seven columns. */
  lemma LineSplits(c: CidrRecord, sep: char, ipString: Address -> string)
    requires sep == ',' || sep == '\t'
    requires sep !in c.srcCidr
    requires sep !in ipString(c.network) && sep !in ipString(c.min)
    requires sep !in ipString(c.max) && sep !in ipString(c.broadcast)
    ensures Split(Join(Headers, [sep]), sep) == Headers
    ensures Split(Line(c, [sep], ipString), sep) == Fields(c, ipString)
  {
    HeaderSplits(sep);
    var f := Fields(c, ipString);
    MaskFree(c.mask, sep);
    IntFree(c.hostNum, sep);
    assert Free(f, sep);
    SplitJoin(f, sep);
  }

  lemma HeaderSplits(sep: char)
    requires sep == ',' || sep == '\t'
    ensures Split(Join(Headers, [sep]), sep) == Headers
  {
    assert Free(Headers, sep);
    SplitJoin(Headers, sep);
  }

  lemma MaskFree(mask: Address, c: char)
    requires !IsDigit(c) && c != '.'
    ensures c !in MaskString(mask)
  {
    DecimalsFree(mask, c);
    if mask != [] {
      DecimalsFree(mask, '.');
      var parts := Decimals(mask);
      JoinChars(parts, c);
    }
  }

  /** Joining by "." brings in no character that no part and not the dot has. */
  lemma {:induction false} JoinChars(parts: seq<string>, c: char)
    requires Free(parts, c) && c != '.'
    ensures c !in Join(parts, ".")
  {
    if |parts| > 1 {
      JoinChars(parts[..|parts| - 1], c);
    }
  }

  lemma IntFree(n: int, c: char)
    requires !IsDigit(c) && c != '-'
    ensures c !in IntString(n)
  {
    if n < 0 {
      DecimalStringDigits(-n);
    } else {
      DecimalStringDigits(n);
    }
  }

  // ---------------------------------------------------------------------------
  // The writers

  /** DefaultWriter (writer/writer.go:29-31): the labelled-block writer. */
  class DefaultWriter {
    const w: Sink

    constructor (out: Sink)
      ensures w == out
    {
      w := out;
    }

    /** writeSingle (writer/writer.go:44-53). */
    method WriteSingle(c: CidrRecord, ipString: Address -> string)
      modifies w
      ensures w.lines == old(w.lines) + Block(c, ipString)
    {
      ghost var before := w.lines;
      w.WriteLine(Headers[0] + " : " + c.srcCidr);
      w.WriteLine(Headers[1] + "     : " + ipString(c.network));
      var mask := Mask2String(c.mask);
      w.WriteLine(Headers[2] + "        : " + mask);
      w.WriteLine(Headers[3] + "    : " + IntString(c.hostNum));
      w.WriteLine(Headers[4] + " : " + ipString(c.min));
      w.WriteLine(Headers[5] + " : " + ipString(c.max));
      w.WriteLine(Headers[6] + "   : " + ipString(c.broadcast));
      w.WriteLine("");
      AppendEight(before, Block(c, ipString));
    }

    /** DefaultWriter.Write (writer/writer.go:38-42): every record's block, in order. */
    method Write(cidrs: seq<CidrRecord>, ipString: Address -> string)
      modifies w
      ensures w.lines == old(w.lines) + PlainLines(cidrs, ipString)
    {
      ghost var before := w.lines;
      for i := 0 to |cidrs|
        invariant w.lines == before + PlainLines(cidrs[..i], ipString)
      {
        PlainLinesStep(cidrs, i, ipString);
        AppendAssoc(before, PlainLines(cidrs[..i], ipString), Block(cidrs[i], ipString));
        WriteSingle(cidrs[i], ipString);
      }
      assert cidrs[..|cidrs|] == cidrs;
    }
  }

  /** SepWriter (writer/writer.go:33-36): a DefaultWriter's stream and a separator. */
  class SepWriter {
    const dw: DefaultWriter
    const sep: string

    constructor (d: DefaultWriter, s: string)
      ensures dw == d && sep == s
    {
      dw, sep := d, s;
    }

    /** writeHeader (writer/writer.go:62-64). */
    method WriteHeader()
      modifies dw.w
      ensures dw.w.lines == old(dw.w.lines) + [Join(Headers, sep)]
    {
      dw.w.WriteLine(Join(Headers, sep));
    }

    /** writeLine (writer/writer.go:66-75). */
    method WriteLine(c: CidrRecord, ipString: Address -> string)
      modifies dw.w
      ensures dw.w.lines == old(dw.w.lines) + [Line(c, sep, ipString)]
    {
      var mask := Mask2String(c.mask);
      var s := [c.srcCidr, ipString(c.network), mask, IntString(c.hostNum),
                ipString(c.min), ipString(c.max), ipString(c.broadcast)];
      dw.w.WriteLine(Join(s, sep));
    }

    /** SepWriter.Write (writer/writer.go:55-60): the header line, then one line per record, in order. */
    method Write(cidrs: seq<CidrRecord>, ipString: Address -> string)
      modifies dw.w
      ensures dw.w.lines == old(dw.w.lines) + [Join(Headers, sep)] + SepLines(cidrs, sep, ipString)
    {
      WriteHeader();
      for i := 0 to |cidrs|
        invariant dw.w.lines == old(dw.w.lines) + [Join(Headers, sep)] + SepLines(cidrs[..i], sep, ipString)
      {
        assert SepLines(cidrs[..i + 1], sep, ipString)
          == SepLines(cidrs[..i], sep, ipString) + [Line(cidrs[i], sep, ipString)];
        WriteLine(cidrs[i], ipString);
      }
      assert cidrs[..|cidrs|] == cidrs;
    }
  }

  /** A value of the Writer interface (writer/writer.go:25-27). */
  datatype AnyWriter = Plain(plain: DefaultWriter) | Separated(separated: SepWriter)

  /** The stream an interface value writes to. */
  function Out(wr: AnyWriter): (sink: Sink)
  {
    match wr
    case Plain(d) => d.w
    case Separated(s) => s.dw.w
  }

  /**
   * NewWriter (writer/writer.go:77-86): csv takes precedence over tsv, and
   * with neither the labelled-block writer is chosen. The source writes to
   * the package variable Out, here the parameter `out`.
   */
  method NewWriter(isCsv: bool, isTsv: bool, out: Sink) returns (wr: AnyWriter)
    ensures Out(wr) == out
    ensures wr.Separated? <==> isCsv || isTsv
    ensures isCsv ==> wr.Separated? && wr.separated.sep == ","
    ensures !isCsv && isTsv ==> wr.Separated? && wr.separated.sep == "\t"
    ensures wr.Separated? ==> fresh(wr.separated) && fresh(wr.separated.dw)
    ensures wr.Plain? ==> fresh(wr.plain)
  {
    var defWriter := new DefaultWriter(out);
    if isCsv {
      var sw := new SepWriter(defWriter, ",");
      wr := Separated(sw);
    } else if isTsv {
      var sw := new SepWriter(defWriter, "\t");
      wr := Separated(sw);
    } else {
      wr := Plain(defWriter);
    }
  }

  /** Writer.Write through the interface: each kind of writer writes its own layout. */
  method Write(wr: AnyWriter, cidrs: seq<CidrRecord>, ipString: Address -> string)
    modifies Out(wr)
    ensures wr.Plain? ==> Out(wr).lines == old(Out(wr).lines) + PlainLines(cidrs, ipString)
    ensures wr.Separated? ==>
      Out(wr).lines == old(Out(wr).lines) + [Join(Headers, wr.separated.sep)]
        + SepLines(cidrs, wr.separated.sep, ipString)
  {
    match wr
    case Plain(d) => d.Write(cidrs, ipString);
    case Separated(s) => s.Write(cidrs, ipString);
  }
}
