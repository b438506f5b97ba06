# ipcl subnet engine and record writers in Dafny

ipcl is a command-line IPv4 subnet calculator. For each CIDR text (`192.168.1.0/24`),
it prints the following:

- the network;
- the mask;
- the number of usable hosts;
- the first and last usable host addresses;
- the broadcast address.

It prints them either as a labelled block of lines or as one comma- or tab-separated line
per subnet after a header line.

This project models the two parts of ipcl that compute something:

- **`Parser`** (`parser.dfy`) covers `parser/parser.go`.
  - `Parse` classifies the address, records the network and mask, and fills in the
    derived fields of the `CidrInfo` record.
  - The record is a class whose fields the methods `CalcIPv4`, `CalcHostNumV4`,
    `CalcAddressesV4` and `CalcBroadcast` set step by step, as the Go pointer-receiver
    methods do.
  - The broadcast address is computed the way the source does it:
    1. write the network as 32 binary digits (`byte2binstr`);
    2. keep the first `ones` digits;
    3. pad with `'1'`;
    4. read the result back eight digits at a time (`binstr2byte`, a loop that ORs
       shifted bits into a byte).
  - For /31, `Min` is the network and `Max` the broadcast address, unchanged. For every
    other prefix length that derives them, they are a copy of the network or broadcast
    address whose last byte is incremented or decremented with byte wrap-around.
- **`Bits`** (`bits.dfy`) gives reference definitions of bitwise AND, OR and complement on
  natural numbers. The subnet arithmetic is stated against them.
- **`SubnetProofs`** (`subnet_proofs.dfy`) proves what the engine guarantees:
  - the binary-string route gives `Network | ^Mask`;
  - the host count per prefix length;
  - the /31 and /32 special cases;
  - the last-byte increment and decrement never wrap up to /30, so
    `Network < Min <= Max < Broadcast` and `Max - Min + 1 == HostNum`;
  - the byte/binary-string round trip;
  - two rows of the test table, as concrete checks.
- **`Writer`** (`writer.dfy`) covers `writer/writer.go`.
  - The output stream is a `Sink` object holding the lines written so far.
  - `itod` is the backwards buffer-filling loop of the source, proved to produce canonical
    decimal notation that reads back as its input.
  - `mask2string` is the dotted-decimal loop.
  - The two writers are classes over the sink:
    - the labelled-block writer (`DefaultWriter`);
    - the separated-values writer (`SepWriter`).
  - `NewWriter` chooses between them.
  - The writers' output is stated as functions of the records (`PlainLines`, `SepLines`).
    Their layout is then proved: 8 lines per record, labels in header order, a header line
    plus one line per record, and a separated line that splits back into its seven fields.

Addresses are `seq<Byte>` with `Byte` the integers 0..255. A nil `net.IP` is the empty
sequence. A 4-byte address is read as a big-endian number below 2^32 (`Value32`).

## Model

| member | source | states |
|---|---|---|
| Parser.To4 | parser/parser.go:59 | net.IP.To4 as getType uses it: a 4-byte address is itself, a 16-byte IPv4-mapped address is its last four bytes, anything else is nil |
| Parser.GetType | parser/parser.go:58-67 | an address is IPv4 exactly when it is 4 bytes long or is a 16-byte IPv4-mapped IPv6 address; every other address yields the not-IPv4 error naming it |
| Parser.Parse | parser/parser.go:30-56 | a CIDR syntax error, or an address that is not IPv4, returns that error with the zero-valued record; an IPv4 address with its 32-bit mask returns no error and a record with type "ipv4", the source text, network = address AND mask, the mask of the prefix length, ones and bits as parsed, and the derived fields of `Derive` |
| Parser.CidrInfo.SetIPv4 | parser/parser.go:43-53 | the record holds the source text, the network, the mask and the prefix length, with bits 32, and its HostNum, Min, Max and Broadcast are those of `Derive(Network, ones)` |
| Parser.CidrInfo.CalcIPv4 | parser/parser.go:69-77 | HostNum is set by prefix length; Min, Max and Broadcast are computed only when HostNum > 1 and are left unchanged otherwise |
| Parser.CidrInfo.CalcHostNumV4 | parser/parser.go:79-89 | HostNum is 1 when ones == bits, 2 when ones == bits - 1, else 2^(bits - ones) - 2 |
| Parser.CidrInfo.CalcAddressesV4 | parser/parser.go:91-114 | Broadcast is the calcBroadCast result; Min is the network for /31, else the network with its last byte plus one (mod 256); Max is the broadcast address for /31, else it with its last byte minus one (mod 256) |
| Parser.CidrInfo.CalcBroadcast | parser/parser.go:116-130 | the two loops leave Broadcast equal to the network's first `ones` binary digits padded with '1' to 32 digits and read back as 4 bytes |
| Parser.ByteToBinStr | parser/parser.go:132-134 | byte2binstr, fmt's "%08b": always exactly 8 characters; the digits are binary and spell the byte (SubnetProofs.ByteToBinStrShape, SubnetProofs.ByteValue) |
| Parser.MakeIpV4 | parser/parser.go:152-157 | makeIpV4 always returns a 4-byte address; which bytes it holds is SubnetProofs.MakeIpV4Copies |
| Parser.CidrInfo.Contains | parser/parser.go:159-161 | an address the subnet contains has a 4-byte form whose value is at least the network's; SubnetProofs.ContainsIsRange gives the exact range |
| Parser.BinStrToByte | parser/parser.go:136-146 | the right-to-left OR loop yields the binary value of the string, with every non-'0' character a one, reduced modulo 256 |
| SubnetProofs.ByteToBinStrShape | parser/parser.go:132-134 | byte2binstr always writes exactly 8 characters, each '0' or '1' |
| SubnetProofs.ByteValue | parser/parser.go:132-134 | the 8 digits of byte2binstr spell the byte in binary |
| SubnetProofs.ByteRoundTrip | parser/parser.go:132-146 | binstr2byte(byte2binstr(b)) == b for every byte |
| SubnetProofs.BinStrRoundTrip | parser/parser.go:132-146 | byte2binstr(binstr2byte(s)) == s for every string of 8 binary digits |
| SubnetProofs.MakeIpV4Copies | parser/parser.go:152-157 | makeIpV4 yields 4 bytes: the source's bytes where it has them, zero beyond its end |
| SubnetProofs.UnpackBinStr | parser/parser.go:116-130 | writing an address as binary digits and reading them back 8 at a time gives the address |
| SubnetProofs.BinStrValue32 | parser/parser.go:117-120 | the 32-digit buffer built from a 4-byte address spells the address's 32-bit value |
| SubnetProofs.MaskBits | parser/parser.go:47 | the mask of prefix length p is, bit by bit, p ones followed by 32 - p zeros |
| SubnetProofs.MaskSizeOf | parser/parser.go:48 | Mask.Size() of the mask of prefix length p is (p, 32), so the record's ones and bits are the prefix length and 32 |
| SubnetProofs.NetworkValue | parser/parser.go:33 | the network is the address rounded down to a multiple of the block size 2^(32 - p) |
| SubnetProofs.BroadcastValue | parser/parser.go:116-130 | the broadcast address is the last address of the network's block: network rounded down plus 2^(32 - p) - 1 |
| SubnetProofs.BroadcastBitsLemma | parser/parser.go:122 | the broadcast address's binary digits are the network's first p digits followed by 32 - p ones |
| SubnetProofs.BroadcastIsOrNotMask | parser/parser.go:116-130 | the binary-string route agrees with the mask formulation: Broadcast == Network OR (NOT Mask) |
| SubnetProofs.HostCountCases | parser/parser.go:79-89 | for a 32-bit address HostNum is 2^(32 - p) - 2 up to /30, 2 for /31 and 1 for /32; it exceeds 1 exactly when p < 32 |
| SubnetProofs.HostRoute | parser/parser.go:74-76 | a /32 record has HostNum 1 and no Min, Max or Broadcast |
| SubnetProofs.PointToPoint | parser/parser.go:96-99 | a /31 record has HostNum 2, Min == Network, Max == Broadcast, and the broadcast address is the network plus one |
| SubnetProofs.MinNoWrap | parser/parser.go:100-102 | when the network ends in two 0 bits, the last-byte increment does not wrap and Min is the network plus one as a 32-bit number |
| SubnetProofs.MaxNoWrap | parser/parser.go:110-112 | when the broadcast address ends in two 1 bits, the last-byte decrement does not wrap and Max is the broadcast address minus one as a 32-bit number |
| SubnetProofs.UsableRangeAligned | parser/parser.go:91-114 | up to /30, on a block-aligned network: the network's last byte is below 255, the broadcast's above 0, Min = Network + 1, Max = Broadcast - 1 and Broadcast = Network + 2^(32 - p) - 1 |
| SubnetProofs.UsableRange | parser/parser.go:85-86 | up to /30, Network < Min <= Max < Broadcast, Min and Max are the network plus one and the broadcast minus one, and Max - Min + 1 == HostNum == 2^(32 - p) - 2 |
| SubnetProofs.DeriveByValues | parser/parser.go:91-114 | up to /30, the derived Min, Max and Broadcast are the addresses whose values are Network + 1, Network + 2^(32 - p) - 2 and Network + 2^(32 - p) - 1 |
| SubnetProofs.Sample24 | parser/parser_test.go:113-117 | 192.168.1.0/24 yields HostNum 254, Min 192.168.1.1, Max 192.168.1.254, Broadcast 192.168.1.255 |
| SubnetProofs.Sample1 | parser/parser_test.go:13-17 | 192.168.1.0/1 has network 128.0.0.0 and yields HostNum 2147483646, Min 128.0.0.1, Max 255.255.255.254, Broadcast 255.255.255.255 |
| SubnetProofs.ContainsIsRange | parser/parser.go:159-161 | an address is in the subnet exactly when its 4-byte form lies between the network and the broadcast address |
| Writer.Itod | writer/writer.go:100-114 | the backwards buffer fill produces the decimal notation of its input: "0" for 0, else its digits with no leading zero |
| Writer.DecimalStringSpec | writer/writer.go:100-114 | itod's output is "0" for 0, is non-empty, holds only '0'..'9', has no leading '0', and reads back as the input in base 10 |
| Writer.DecimalOfValue | writer/writer.go:100-114 | every canonical decimal string is itod of its value, so itod is the inverse of reading decimals |
| Writer.Mask2String | writer/writer.go:88-98 | the loop produces the bytes in decimal, in order, joined by "." |
| Writer.MaskFields | writer/writer.go:88-98 | a 4-byte mask renders with exactly three '.' characters and splits into the four bytes' itod strings, in order |
| Writer.SplitJoin | writer/writer.go:63 | splitting a strings.Join result on its one-character separator gives the parts back when none contains the separator |
| Writer.CountJoin | writer/writer.go:63 | joining n parts free of the separator puts exactly n - 1 separators into the text |
| Writer.HeaderColumns | writer/writer.go:16-22 | the header names are seven pairwise distinct names, none holding ',' or a tab |
| Writer.HeaderSplits | writer/writer.go:16-22 | the header line, split on ',' or tab, gives the seven column names source_cidr, network, mask, host_num, min_address, max_address, broadcast, in that order |
| Writer.LineSplits | writer/writer.go:66-75 | a writeLine line, split on its separator, gives back the seven fields in header order, provided the source text and the rendered addresses contain no separator |
| Writer.BlockLabels | writer/writer.go:44-53 | line k of a record's block is column name k padded to 12 characters, then ": " and the value the separated writer puts in column k; the eighth line is empty |
| Writer.PlainLayout | writer/writer.go:38-42 | the plain writer writes exactly 8 lines per record, record k's block at lines 8k to 8k + 7, in input order |
| Writer.Sink.WriteLine | writer/writer.go:45 | one Fprintf call ending in "\n" appends exactly one line to the stream |
| Writer.DefaultWriter.WriteSingle | writer/writer.go:44-53 | the stream grows by exactly the record's eight-line block |
| Writer.DefaultWriter.Write | writer/writer.go:38-42 | the stream grows by the blocks of the records in input order, and by nothing else |
| Writer.SepWriter.WriteHeader | writer/writer.go:62-64 | the stream grows by one line, the column names joined by the separator |
| Writer.SepWriter.WriteLine | writer/writer.go:66-75 | the stream grows by one line: the seven fields in header order joined by the separator |
| Writer.SepWriter.Write | writer/writer.go:55-60 | the stream grows by the header line and then one line per record, in input order: 1 + n lines |
| Writer.NewWriter | writer/writer.go:77-86 | a separated writer is chosen exactly when csv or tsv is set; csv gives "," even when tsv is also set; tsv alone gives a tab; otherwise the plain writer is chosen; every writer writes to the given stream |
| Writer.Write | writer/writer.go:25-27 | writing through the interface writes the plain layout or the separated layout, according to the writer chosen |

## Left out

- `main.go` is not part of this model. It holds flag parsing, reading CIDR texts from arguments or a file, error messages and exit codes.
- The text parsing inside `net.ParseCIDR` is a library call. `Parse` receives its outcome as a `CidrParse` value: a syntax error, or the parsed address and prefix length. The network is defined as the address AND the mask, as the library computes it.
- Parse: requires a 32-bit mask whenever the address has a 4-byte form, so IPv4-mapped IPv6 text (`::ffff:a.b.c.d/n`) is outside the model. For such text the library reports a 16-byte network and a 128-bit mask, and `calcIPv4` runs with bits = 128. For n <= 64 the low 64 bits of 2^(128 - n) are 0, so HostNum is -2 and no Min, Max or Broadcast is derived. For 65 <= n <= 127, Min, Max and Broadcast are derived from the first four bytes of the 16-byte network.
- `net.IP.String` renders the addresses in both writers, including how a nil address prints. It is library formatting and is the function parameter `ipString`.
- `strconv.Itoa` and `%d` on HostNum are the function `IntString` (a '-' for negative numbers, then the digits). They are not loops of the source.
- `io.Writer` and `fmt.Fprintf` are the `Sink` class, a sequence of lines. Real stream I/O and write errors are not modelled. The package variable `Out` becomes the `out` parameter of `NewWriter`.
- `big.Int` exponentiation in `calcHostNumV4` is `Pow2` on unbounded naturals, which assumes a 64-bit Go `int`. There the result, at most 2^32 - 2, fits. On a 32-bit target (386, arm) `int(...Int64())` cuts 2^32 down to 0, so /0 gives HostNum -2 and no Min, Max or Broadcast; the model does not cover that platform.
- `Contains` delegates to `net.IPNet.Contains` and `net.ParseIP`. Text parsing of the address is left out: the predicate receives the parsed address and tests `(ip AND mask) == network` on its 4-byte form.
- `net.IP.To4` and `net.IPMask.Size` are library functions; `To4` and `MaskSize` model them from their documented behaviour.
- Parser.CidrInfo.CalcAddressesV4: computes Min and Max in local variables and assigns both fields at the end. The source assigns Min before it computes Max, but nothing reads Min in between, so the final record is the same.
- `binstr2hexstr` (parser/parser.go:148-150) is used nowhere in the subnet engine and is not modelled.
- Aliasing is not modelled. Go's `Min = Network` and `Max = Broadcast` for /31 share the backing arrays; the model copies values, which is the same as long as nothing mutates the slices afterwards, and the source never does.
- The embedded `*DefaultWriter` of `SepWriter` is the field `dw`. The `Writer` interface is the datatype `AnyWriter`, with one case per implementation.
- Writer.LineSplits: stated only for fields that contain no separator. The source does not quote or escape fields, so a source text or a rendered address that contains a ',' or a tab does not split back.
- writer/writer_test.go checks no output, so no property is taken from it.
