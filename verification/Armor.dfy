/**
  ASCII armor with headers: section 6.2 of RFC 4880. The encoding of the data below the header block is a
  parameter, and so is what the reader cuts off the end of a line before it looks at it.
 */
module Armor {
  import opened Bytes
  import opened RustText
  import opened RustTextMeaning
  import opened Wrappers

  datatype Header = Header(key: string, value: string)

  // ---------- The validation of header arrays ----------

  predicate IsAscii(s: string) {
    forall i | 0 <= i < |s| :: s[i] < '\U{80}'
  }

  predicate SeparatorAt(s: string, i: nat) {
    i + 1 < |s| && s[i] == ':' && s[i + 1] == ' '
  }

  predicate ContainsSeparator(s: string) {
    exists i | 0 <= i < |s| :: SeparatorAt(s, i)
  }

  predicate ValidHeader(h: Header) {
    && IsAscii(h.key)
    && !ContainsSeparator(h.key)
    && '\n' !in h.key
    && IsAscii(h.value)
    && '\n' !in h.value
  }

  function AsHeader(key: Option<string>, value: Option<string>): Header {
    Header(if key.Some? then key.value else "", if value.Some? then value.value else "")
  }

  /** The arrays as pairs; NULL elements, unequal lengths and unprintable headers are errors. */
  function ValidateHeaders(keys: seq<Option<string>>, values: seq<Option<string>>): Option<seq<Header>> {
    if None in keys || None in values || |keys| != |values| then None
    else
      var headers := seq(|keys|, i requires 0 <= i < |keys| => AsHeader(keys[i], values[i]));
      if forall i | 0 <= i < |headers| :: ValidHeader(headers[i]) then Some(headers) else None
  }

  // ---------- Printing and reading the header block ----------

  function HeaderLine(h: Header): string {
    h.key + ": " + h.value
  }

  /** One line for each header, and an empty line. */
  function Print(headers: seq<Header>): string {
    if headers == [] then "\n" else HeaderLine(headers[0]) + ['\n'] + Print(headers[1..])
  }

  /** The position of the first separator from `from` on, or |line|. */
  function FirstSeparator(line: string, from: nat): (r: nat)
    requires from <= |line|
    ensures from <= r <= |line|
    ensures r < |line| ==> SeparatorAt(line, r)
    ensures forall i | from <= i < r :: !SeparatorAt(line, i)
    decreases |line| - from
  {
    if from == |line| || SeparatorAt(line, from) then from else FirstSeparator(line, from + 1)
  }

  function ReadLine(line: string): Option<Header> {
    var i := FirstSeparator(line, 0);
    if i == |line| then None else Some(Header(line[..i], line[i + 2..]))
  }

  /** Cutting something, or nothing, off the end of every line. */
  ghost predicate Trims(trim: string -> string) {
    forall line :: trim(line) <= line
  }

  /** The headers up to the empty line, and the text below it. */
  function ReadHeaders(trim: string -> string, text: string): Option<(seq<Header>, string)>
    decreases |text|
  {
    var (line, rest) :- SplitOnce(text, '\n');
    if trim(line) == "" then Some(([], rest))
    else
      var header :- ReadLine(trim(line));
      var (headers, body) :- ReadHeaders(trim, rest);
      Some(([header] + headers, body))
  }

  method PrintLoop(headers: seq<Header>) returns (output: string)
    ensures output == Print(headers)
  {
    output := "";
    for i := 0 to |headers|
      invariant Print(headers) == output + Print(headers[i..])
    {
      assert headers[i..][1..] == headers[i + 1..];
      output := output + (HeaderLine(headers[i]) + ['\n']);
    }
    output := output + ['\n'];
  }

  /** What was read after the given headers. */
  ghost function After(headers: seq<Header>, read: Option<(seq<Header>, string)>): Option<(seq<Header>, string)> {
    if read.None? then None else Some((headers + read.value.0, read.value.1))
  }

  lemma ReadOneMore(trim: string -> string, headers: seq<Header>, text: string)
    requires SplitOnce(text, '\n').Some?
    ensures var (line, rest) := SplitOnce(text, '\n').value;
      After(headers, ReadHeaders(trim, text))
      == if trim(line) == "" then Some((headers, rest))
         else if ReadLine(trim(line)) == None then None
         else After(headers + [ReadLine(trim(line)).value], ReadHeaders(trim, rest))
  {
    hide ReadLine, SplitOnce;
    var (line, rest) := SplitOnce(text, '\n').value;
    assert headers + [] == headers;
    if trim(line) != "" && ReadLine(trim(line)).Some? && ReadHeaders(trim, rest).Some? {
      var header, more := ReadLine(trim(line)).value, ReadHeaders(trim, rest).value.0;
      assert headers + ([header] + more) == (headers + [header]) + more;
    }
  }

  method ReadLoop(trim: string -> string, text: string) returns (r: Option<(seq<Header>, string)>)
    ensures r == ReadHeaders(trim, text)
  {
    var headers: seq<Header>, rest := [], text;
    assert ReadHeaders(trim, text).Some? ==> [] + ReadHeaders(trim, text).value.0 == ReadHeaders(trim, text).value.0;
    while true
      invariant ReadHeaders(trim, text) == After(headers, ReadHeaders(trim, rest))
      decreases |rest|
    {
      hide ReadLine;
      var split := SplitOnce(rest, '\n');
      if split == None {
        return None;
      }
      ReadOneMore(trim, headers, rest);
      var line := trim(split.value.0);
      if line == "" {
        return Some((headers, split.value.1));
      }
      var header := ReadLine(line);
      if header == None {
        return None;
      }
      headers, rest := headers + [header.value], split.value.1;
    }
  }

  // ---------- The entry points ----------

  const BEGIN_LINE := "-----BEGIN PGP MESSAGE-----"

  /** What the library makes of the data below the header block, how it reads it back, and how it trims header lines. */
  datatype ArmorCodec = ArmorCodec(write: seq<byte> -> string, read: string -> Option<seq<byte>>,
                                   trim: string -> string)
  {
    ghost predicate Lawful() {
      && Trims(trim)
      && forall data :: read(write(data)) == Some(data)
    }
  }

  function EncodeArmor(codec: ArmorCodec, data: seq<byte>, headers: seq<Header>): string {
    BEGIN_LINE + ['\n'] + (Print(headers) + codec.write(data))
  }

  function ArmorWithHeaders(codec: ArmorCodec, data: seq<byte>, keys: seq<Option<string>>, values: seq<Option<string>>)
    : Option<string>
  {
    var headers :- ValidateHeaders(keys, values);
    Some(EncodeArmor(codec, data, headers))
  }

  function OpenArmor(codec: ArmorCodec, text: string): Option<(seq<Header>, string)> {
    var (line, rest) :- SplitOnce(text, '\n');
    if line == BEGIN_LINE then ReadHeaders(codec.trim, rest) else None
  }

  function Dearmor(codec: ArmorCodec, text: string): Option<seq<byte>> {
    var (_, body) :- OpenArmor(codec, text);
    codec.read(body)
  }

  function PgpArmorHeaders(codec: ArmorCodec, text: string): Option<seq<Header>> {
    var (headers, _) :- OpenArmor(codec, text);
    Some(headers)
  }

  // ---------- What the validation is for ----------

  /** What the header block can carry: the validation without the two ASCII checks. */
  ghost predicate Printable(h: Header) {
    !ContainsSeparator(h.key) && '\n' !in h.key && '\n' !in h.value
  }

  /** The first separator of a printed line ends the key, even when the key ends in a colon. */
  lemma ReadLineOfHeaderLine(h: Header)
    requires !ContainsSeparator(h.key)
    ensures ReadLine(HeaderLine(h)) == Some(h)
  {
    var line := HeaderLine(h);
    assert SeparatorAt(line, |h.key|);
    assert forall j | 0 <= j < |h.key| :: SeparatorAt(line, j) ==> SeparatorAt(h.key, j);
    assert line[..|h.key|] == h.key && line[|h.key| + 2..] == h.value;
  }

  lemma HeaderLineOfReadLine(line: string)
    requires ReadLine(line).Some?
    ensures HeaderLine(ReadLine(line).value) == line
    ensures !ContainsSeparator(ReadLine(line).value.key)
  {
    var h, i := ReadLine(line).value, FirstSeparator(line, 0);
    assert SeparatorAt(line, i);
    assert forall j | 0 <= j < i :: SeparatorAt(h.key, j) ==> SeparatorAt(line, j);
  }

  /** Trimming leaves the separator behind the key. */
  predicate SeparatorKept(trim: string -> string, h: Header) {
    |h.key| + 2 <= |trim(HeaderLine(h))|
  }

  predicate LineKept(trim: string -> string, h: Header) {
    trim(HeaderLine(h)) == HeaderLine(h)
  }

  /** The header with the value that trimming leaves of it. */
  function AsRead(trim: string -> string, h: Header): Header {
    if SeparatorKept(trim, h) then Header(h.key, trim(HeaderLine(h))[|h.key| + 2..]) else h
  }

  function AllAsRead(trim: string -> string, headers: seq<Header>): (r: seq<Header>)
    ensures |r| == |headers| && forall i | 0 <= i < |r| :: r[i] == AsRead(trim, headers[i])
  {
    if headers == [] then [] else [AsRead(trim, headers[0])] + AllAsRead(trim, headers[1..])
  }

  /** Reading a printed header block begins with its first line. */
  lemma ReadPrinted(trim: string -> string, headers: seq<Header>, body: string)
    requires Trims(trim) && forall h <- headers :: Printable(h)
    ensures var read := ReadHeaders(trim, Print(headers) + body);
      if headers == [] then read == Some(([], body))
      else
        var line, more := trim(HeaderLine(headers[0])), ReadHeaders(trim, Print(headers[1..]) + body);
        if line == "" then read.Some? && read.value.0 == []
        else if ReadLine(line) == None || more == None then read == None
        else read == Some(([ReadLine(line).value] + more.value.0, more.value.1))
  {
    var text := Print(headers) + body;
    if headers == [] {
      assert text == "" + ['\n'] + body;
      SplitOnceAt("", '\n', body);
      assert trim("") <= "";
    } else {
      var line, rest := HeaderLine(headers[0]), Print(headers[1..]) + body;
      assert headers[0] in headers && Printable(headers[0]);
      assert text == line + ['\n'] + rest;
      SplitOnceAt(line, '\n', rest);
    }
  }

  lemma ReadTrimmedLine(trim: string -> string, h: Header)
    requires Trims(trim) && Printable(h) && SeparatorKept(trim, h)
    ensures ReadLine(trim(HeaderLine(h))) == Some(AsRead(trim, h))
  {
    var line := trim(HeaderLine(h));
    assert line <= HeaderLine(h);
    assert line == HeaderLine(AsRead(trim, h));
    ReadLineOfHeaderLine(AsRead(trim, h));
  }

  lemma LineIsLeft(trim: string -> string, h: Header)
    requires SeparatorKept(trim, h)
    ensures trim(HeaderLine(h)) != ""
  {
  }

  lemma {:induction false} PrintedHeadersReadBack(trim: string -> string, headers: seq<Header>, body: string)
    requires Trims(trim) && forall h <- headers :: Printable(h) && SeparatorKept(trim, h)
    ensures ReadHeaders(trim, Print(headers) + body) == Some((AllAsRead(trim, headers), body))
  {
    hide ReadHeaders, ReadLine, Printable, SeparatorKept, AsRead, Print;
    ReadPrinted(trim, headers, body);
    if headers != [] {
      assert headers[0] in headers;
      ReadTrimmedLine(trim, headers[0]);
      assert trim(HeaderLine(headers[0])) != "" by { LineIsLeft(trim, headers[0]); }
      PrintedHeadersReadBack(trim, headers[1..], body);
    }
  }

  lemma {:induction false} LinesOfHeadersReadBack(trim: string -> string, headers: seq<Header>, body: string)
    requires Trims(trim) && forall h <- headers :: Printable(h)
    requires var read := ReadHeaders(trim, Print(headers) + body); read.Some? && read.value.0 == headers
    ensures forall h <- headers :: LineKept(trim, h)
  {
    hide ReadHeaders, ReadLine, Printable, Print;
    ReadPrinted(trim, headers, body);
    if headers != [] {
      HeaderLineOfReadLine(trim(HeaderLine(headers[0])));
      var more := ReadHeaders(trim, Print(headers[1..]) + body).value.0;
      assert headers[1..] == more;
      LinesOfHeadersReadBack(trim, headers[1..], body);
    }
  }

  lemma ReadLineIsPrintable(line: string)
    requires '\n' !in line && ReadLine(line).Some?
    ensures Printable(ReadLine(line).value)
  {
    var h := ReadLine(line).value;
    HeaderLineOfReadLine(line);
    hide ReadLine;
    assert forall c :: c in h.key || c in h.value ==> c in HeaderLine(h);
  }

  lemma {:induction false} ReadHeadersArePrintable(trim: string -> string, text: string)
    requires Trims(trim) && ReadHeaders(trim, text).Some?
    ensures forall h <- ReadHeaders(trim, text).value.0 :: Printable(h)
    decreases |text|
  {
    hide ReadLine, Printable;
    var (whole, rest) := SplitOnce(text, '\n').value;
    var line := trim(whole);
    assert line <= whole;
    if line != "" {
      ReadLineIsPrintable(line);
      ReadHeadersArePrintable(trim, rest);
    }
  }

  lemma KeptLinesReadBack(trim: string -> string, headers: seq<Header>)
    requires forall h <- headers :: LineKept(trim, h)
    ensures AllAsRead(trim, headers) == headers
    ensures forall h <- headers :: SeparatorKept(trim, h)
  {
    forall i | 0 <= i < |headers|
      ensures AsRead(trim, headers[i]) == headers[i] && SeparatorKept(trim, headers[i])
    {
      assert headers[i] in headers && LineKept(trim, headers[i]);
    }
  }

  /**
    A list of headers comes back from its header block exactly when no key holds the separator, no key or value
    holds a newline, and trimming leaves the lines alone; so none of the checks can be dropped.
   */
  lemma HeadersReadBackIff(trim: string -> string, headers: seq<Header>, body: string)
    requires Trims(trim)
    ensures ReadHeaders(trim, Print(headers) + body) == Some((headers, body))
       <==> forall h <- headers :: Printable(h) && LineKept(trim, h)
  {
    hide ReadHeaders, Print, Printable, LineKept, SeparatorKept, Trims, AllAsRead;
    if ReadHeaders(trim, Print(headers) + body) == Some((headers, body)) {
      ReadHeadersArePrintable(trim, Print(headers) + body);
      LinesOfHeadersReadBack(trim, headers, body);
    }
    if forall h <- headers :: Printable(h) && LineKept(trim, h) {
      KeptLinesReadBack(trim, headers);
      PrintedHeadersReadBack(trim, headers, body);
    }
  }

  lemma TrimEndTrims()
    ensures Trims(TrimEnd)
  {
    hide TrimEnd;
    forall line
      ensures TrimEnd(line) <= line
    {
      var _ := TrimEndStops(line);
    }
  }

  /** Where trimming white space off the end of a line stops. */
  lemma WhiteSpaceTrimmed(h: Header)
    ensures LineKept(TrimEnd, h) <==> h.value != "" && !IsWhitespace(h.value[|h.value| - 1])
    ensures SeparatorKept(TrimEnd, h) <==> exists c <- h.value :: !IsWhitespace(c)
  {
    assert IsWhitespace(' ');
    hide TrimEnd, IsWhitespace;
    var line, from := HeaderLine(h), |h.key| + 2;
    var j := TrimEndStops(line);
    assert line[from - 1] == ' ';
    forall i | 0 <= i < |h.value|
      ensures line[from + i] == h.value[i]
    {
    }
    hide HeaderLine;
    if j > from {
      assert !IsWhitespace(h.value[j - 1 - from]);
    }
    if i :| 0 <= i < |h.value| && !IsWhitespace(h.value[i]) {
      assert j > from + i;
    }
  }

  /**
    Whatever `armor` accepts, `dearmor` gives back, and `pgp_armor_headers` gives back the keys, in order, with
    what trimming leaves of the values, if it leaves the separators. The headers come back unchanged exactly
    when trimming leaves their lines alone.
   */
  lemma ArmorRoundTrip(codec: ArmorCodec, data: seq<byte>, keys: seq<Option<string>>, values: seq<Option<string>>)
    requires codec.Lawful()
    requires ArmorWithHeaders(codec, data, keys, values).Some?
    ensures var text := ArmorWithHeaders(codec, data, keys, values).value;
      && |keys| == |values| && None !in keys && None !in values
      && var headers := seq(|keys|, i requires 0 <= i < |keys| => AsHeader(keys[i], values[i]));
         && ((forall h <- headers :: SeparatorKept(codec.trim, h)) ==>
              && Dearmor(codec, text) == Some(data)
              && PgpArmorHeaders(codec, text) == Some(AllAsRead(codec.trim, headers)))
         && (PgpArmorHeaders(codec, text) == Some(headers) <==> forall h <- headers :: LineKept(codec.trim, h))
  {
    hide ReadHeaders, Print, ValidateHeaders, SplitOnce, Printable;
    var headers, body := ValidateHeaders(keys, values).value, codec.write(data);
    ValidatedHeaders(keys, values);
    assert '\n' !in BEGIN_LINE;
    SplitOnceAt(BEGIN_LINE, '\n', Print(headers) + body);
    if forall h <- headers :: SeparatorKept(codec.trim, h) {
      PrintedHeadersReadBack(codec.trim, headers, body);
    }
    HeadersReadBackIff(codec.trim, headers, body);
    var read := ReadHeaders(codec.trim, Print(headers) + body);
    if read.Some? && read.value.0 == headers {
      LinesOfHeadersReadBack(codec.trim, headers, body);
    }
  }

  // ---------- What is accepted and written ----------

  /** ASCII characters without a newline. */
  ghost predicate IsAsciiLine(s: string) {
    forall c <- s :: c as int < 128 && c != '\n'
  }

  lemma IsAsciiLineIff(s: string)
    ensures IsAsciiLine(s) <==> IsAscii(s) && '\n' !in s
  {
    if IsAsciiLine(s) {
      assert forall i | 0 <= i < |s| :: s[i] in s;
    }
  }

  /** The string has a colon with a space behind it. */
  ghost predicate HasColonSpace(s: string) {
    exists a, b :: s == a + ": " + b
  }

  lemma HasColonSpaceIff(s: string)
    ensures HasColonSpace(s) <==> ContainsSeparator(s)
  {
    if a, b :| s == a + ": " + b {
      assert SeparatorAt(s, |a|);
    }
    if ContainsSeparator(s) {
      var i :| 0 <= i < |s| && SeparatorAt(s, i);
      var a, b := s[..i], s[i + 2..];
      assert s == a + ": " + b;
    }
  }

  lemma ValidHeaderIff(h: Header)
    ensures ValidHeader(h) <==> IsAsciiLine(h.key) && IsAsciiLine(h.value) && !HasColonSpace(h.key)
  {
    hide IsAscii, IsAsciiLine, HasColonSpace, ContainsSeparator;
    IsAsciiLineIff(h.key);
    IsAsciiLineIff(h.value);
    HasColonSpaceIff(h.key);
  }

  /** One line for each header, key, colon, space and value, in order; then one empty line. */
  lemma {:induction false} PrintParts(a: seq<Header>, h: Header)
    ensures Print([]) == "\n"
    ensures |Print(a)| > 0
    ensures Print(a + [h]) == Print(a)[..|Print(a)| - 1] + (h.key + ": " + h.value + ['\n'] + ['\n'])
  {
    var all := a + [h];
    assert Print([]) == ['\n'];
    if a == [] {
      assert all == [h] && all[1..] == [];
      assert Print(all) == HeaderLine(h) + ['\n'] + Print([]);
      assert Print(a)[..0] == "";
    } else {
      PrintParts(a[1..], h);
      assert all[0] == a[0] && all[1..] == a[1..] + [h];
      var line, rest := HeaderLine(a[0]) + ['\n'], Print(a[1..]);
      assert Print(a) == line + rest && Print(all) == line + Print(all[1..]);
      hide Print, HeaderLine;
      assert Print(a)[..|Print(a)| - 1] == line + rest[..|rest| - 1];
    }
  }

  /**
    Arrays of equal length are accepted exactly when no element is NULL, all are lines of ASCII characters, and no
    key holds a colon with a space behind it. The text is then the first line of a message, the headers and the data.
   */
  lemma ArmorIff(codec: ArmorCodec, data: seq<byte>, keys: seq<Option<string>>, values: seq<Option<string>>,
                 text: string)
    ensures ArmorWithHeaders(codec, data, keys, values) == Some(text)
       <==> && |keys| == |values|
            && (forall i | 0 <= i < |keys| :: Accepts(keys[i], values[i]))
            && text == "-----BEGIN PGP MESSAGE-----\n"
                       + (Print(seq(|keys|, i requires 0 <= i < |keys| => AsHeader(keys[i], values[i])))
                          + codec.write(data))
  {
    hide Print, ValidHeader, Accepts;
    assert BEGIN_LINE + ['\n'] == "-----BEGIN PGP MESSAGE-----\n";
    if |keys| == |values| {
      forall i | 0 <= i < |keys|
        ensures Accepts(keys[i], values[i])
           <==> keys[i].Some? && values[i].Some? && ValidHeader(AsHeader(keys[i], values[i]))
      {
        AcceptsIff(keys[i], values[i]);
      }
      var headers := seq(|keys|, i requires 0 <= i < |keys| => AsHeader(keys[i], values[i]));
      assert forall i | 0 <= i < |keys| :: headers[i] == AsHeader(keys[i], values[i]);
      assert None !in keys <==> forall i | 0 <= i < |keys| :: keys[i].Some?;
      assert None !in values <==> forall i | 0 <= i < |keys| :: values[i].Some?;
    }
  }

  lemma AcceptsIff(key: Option<string>, value: Option<string>)
    ensures Accepts(key, value) <==> key.Some? && value.Some? && ValidHeader(AsHeader(key, value))
  {
    hide ValidHeader;
    ValidHeaderIff(AsHeader(key, value));
  }

  ghost predicate Accepts(key: Option<string>, value: Option<string>) {
    && key.Some? && value.Some?
    && IsAsciiLine(key.value) && IsAsciiLine(value.value)
    && !HasColonSpace(key.value)
  }

  lemma ValidatedHeaders(keys: seq<Option<string>>, values: seq<Option<string>>)
    requires ValidateHeaders(keys, values).Some?
    ensures |keys| == |values|
    ensures ValidateHeaders(keys, values).value
         == seq(|keys|, i requires 0 <= i < |keys| => AsHeader(keys[i], values[i]))
    ensures forall h <- ValidateHeaders(keys, values).value :: Printable(h)
    ensures None !in keys && None !in values
  {
  }
}
