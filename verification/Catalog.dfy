/** Loading a source catalog: the frame, the tab-separated lines, canonical numbers, hexadecimal fields,
    the passage hash and the labels, in the order of the checks. A catalog that loads is the one
    canonical image of its rows. */
module Catalog {
  import opened Words
  import opened Wrappers
  import opened SourceParts

  const MAX_CATALOG: nat := 16 * 1024 * 1024
  const MAX_LABEL: nat := 1024
  const HASH_BYTES: nat := 32
  const NEWLINE: Byte := 0x0A
  const RETURN: Byte := 0x0D
  const TAB: Byte := 0x09

  /** "GELCORPUS082" and a newline. */
  const MAGIC: seq<Byte> := [0x47, 0x45, 0x4C, 0x43, 0x4F, 0x52, 0x50, 0x55, 0x53, 0x30, 0x38, 0x32, 0x0A]

  /** What the standard library and the hash crate provide: SHA-256, UTF-8 decoding and the normalization
      of titles; `encode` gives the bytes of a string. */
  datatype Library = Library(
    digest: seq<Byte> -> seq<Byte>,
    utf8: seq<Byte> -> Option<string>,
    encode: string -> seq<Byte>,
    normalize: string -> string)

  /** Digests have 32 bytes, and decoding inverts encoding. */
  ghost predicate Faithful(lib: Library) {
    && (forall b :: |lib.digest(b)| == HASH_BYTES)
    && forall b, s :: lib.utf8(b) == Some(s) <==> lib.encode(s) == b
  }

  // ---- splitting ----

  function IndexOf(s: seq<Byte>, sep: Byte): (i: nat)
    requires sep in s
    ensures i < |s| && s[i] == sep && sep !in s[..i]
  {
    if s[0] == sep then 0
    else
      assert s == [s[0]] + s[1..];
      var rest := IndexOf(s[1..], sep);
      assert s[..rest + 1] == [s[0]] + s[1..][..rest];
      rest + 1
  }

  lemma {:induction false} IndexIsFirst(s: seq<Byte>, sep: Byte, k: nat)
    requires k < |s| && s[k] == sep && sep !in s[..k]
    ensures sep in s && IndexOf(s, sep) == k
  {
    if k != 0 {
      assert s[0] in s[..k];
      assert s[..k] == [s[0]] + s[1..][..k - 1];
      IndexIsFirst(s[1..], sep, k - 1);
    }
  }

  lemma FrontAndBack(front: seq<Byte>, sep: Byte, back: seq<Byte>)
    ensures (front + [sep] + back)[..|front|] == front && (front + [sep] + back)[|front| + 1..] == back
    ensures (front + [sep] + back)[|front|] == sep
  {
  }

  lemma {:induction false} IndexInFront(front: seq<Byte>, sep: Byte, back: seq<Byte>)
    requires sep !in front
    ensures sep in front + [sep] + back && IndexOf(front + [sep] + back, sep) == |front|
  {
    FrontAndBack(front, sep, back);
    IndexIsFirst(front + [sep] + back, sep, |front|);
  }

  /** `splitn`: at most `n` pieces; the last one is not split further. */
  function Split(s: seq<Byte>, sep: Byte, n: nat): (parts: seq<seq<Byte>>)
    ensures parts != []
  {
    if n <= 1 || sep !in s then [s]
    else
      var i := IndexOf(s, sep);
      [s[..i]] + Split(s[i + 1..], sep, n - 1)
  }

  function Joined(parts: seq<seq<Byte>>, sep: Byte): seq<Byte> {
    if parts == [] then []
    else if |parts| == 1 then parts[0]
    else parts[0] + [sep] + Joined(parts[1..], sep)
  }

  predicate Without(parts: seq<seq<Byte>>, sep: Byte) {
    forall p :: p in parts ==> sep !in p
  }

  lemma {:induction false} JoinedCons(p: seq<Byte>, rest: seq<seq<Byte>>, sep: Byte)
    requires rest != []
    ensures Joined([p] + rest, sep) == p + [sep] + Joined(rest, sep)
  {
    assert ([p] + rest)[1..] == rest;
  }

  lemma CutAt(s: seq<Byte>, sep: Byte, i: nat)
    requires i < |s| && s[i] == sep
    ensures s == s[..i] + [sep] + s[i + 1..]
  {
  }

  lemma SplitCons(s: seq<Byte>, sep: Byte, n: nat, i: nat)
    requires n > 1 && sep in s && i == IndexOf(s, sep)
    ensures Split(s, sep, n) == [s[..i]] + Split(s[i + 1..], sep, n - 1)
  {
  }

  lemma WithoutCons(p: seq<Byte>, rest: seq<seq<Byte>>, sep: Byte)
    ensures Without([p] + rest, sep) <==> sep !in p && Without(rest, sep)
  {
    if Without([p] + rest, sep) {
      assert p in [p] + rest;
      assert forall q :: q in rest ==> q in [p] + rest;
    }
  }

  lemma JoinStep(s: seq<Byte>, sep: Byte, n: nat, i: nat, rest: seq<seq<Byte>>)
    requires n > 1 && sep in s && i == IndexOf(s, sep) && rest == Split(s[i + 1..], sep, n - 1)
    requires Joined(rest, sep) == s[i + 1..] && |rest| <= n - 1 && (|rest| < n - 1 ==> Without(rest, sep))
    ensures Joined(Split(s, sep, n), sep) == s && |Split(s, sep, n)| <= n
    ensures |Split(s, sep, n)| < n ==> Without(Split(s, sep, n), sep)
  {
    hide *;
    SplitCons(s, sep, n, i);
    JoinedCons(s[..i], rest, sep);
    WithoutCons(s[..i], rest, sep);
    CutAt(s, sep, i);
  }

  /** Splitting loses nothing, and fewer than `n` pieces hold no separator. */
  lemma {:induction false} SplitJoins(s: seq<Byte>, sep: Byte, n: nat)
    requires n >= 1
    ensures Joined(Split(s, sep, n), sep) == s && |Split(s, sep, n)| <= n
    ensures |Split(s, sep, n)| < n ==> Without(Split(s, sep, n), sep)
  {
    if n > 1 && sep in s {
      hide *;
      var i := IndexOf(s, sep);
      SplitJoins(s[i + 1..], sep, n - 1);
      JoinStep(s, sep, n, i, Split(s[i + 1..], sep, n - 1));
    } else {
      assert Split(s, sep, n) == [s];
    }
  }

  lemma {:induction false} SplitStep(p: seq<Byte>, rest: seq<seq<Byte>>, sep: Byte, n: nat)
    requires n > 1 && rest != [] && sep !in p && Split(Joined(rest, sep), sep, n - 1) == rest
    ensures Split(Joined([p] + rest, sep), sep, n) == [p] + rest
  {
    hide *;
    var tail := Joined(rest, sep);
    JoinedCons(p, rest, sep);
    IndexInFront(p, sep, tail);
    FrontAndBack(p, sep, tail);
    SplitCons(p + [sep] + tail, sep, n, |p|);
  }

  lemma {:induction false} SplitOne(p: seq<Byte>, sep: Byte, n: nat)
    requires sep !in p
    ensures Split(Joined([p], sep), sep, n) == [p]
  {
  }

  lemma FirstAndRest(parts: seq<seq<Byte>>)
    requires parts != []
    ensures parts == [parts[0]] + parts[1..] && (|parts| == 1 ==> parts == [parts[0]])
  {
  }

  /** Pieces without a separator are found again. */
  lemma {:induction false} SplitOfJoined(parts: seq<seq<Byte>>, sep: Byte, n: nat)
    requires 1 <= |parts| <= n && Without(parts, sep)
    ensures Split(Joined(parts, sep), sep, n) == parts
  {
    hide *;
    var first, rest := parts[0], parts[1..];
    FirstAndRest(parts);
    WithoutCons(first, rest, sep);
    if |parts| == 1 {
      SplitOne(first, sep, n);
    } else {
      SplitOfJoined(rest, sep, n - 1);
      SplitStep(first, rest, sep, n);
    }
  }

  /** `split_terminator` at newlines. */
  function Lines(s: seq<Byte>): seq<seq<Byte>> {
    if s == [] then []
    else if NEWLINE !in s then [s]
    else
      var i := IndexOf(s, NEWLINE);
      [s[..i]] + Lines(s[i + 1..])
  }

  function Unlines(lines: seq<seq<Byte>>): seq<Byte> {
    if lines == [] then [] else lines[0] + [NEWLINE] + Unlines(lines[1..])
  }

  lemma {:induction false} UnlinesCons(line: seq<Byte>, rest: seq<seq<Byte>>)
    ensures Unlines([line] + rest) == line + [NEWLINE] + Unlines(rest)
  {
    assert ([line] + rest)[1..] == rest;
  }

  lemma {:induction false} LinesJoin(s: seq<Byte>)
    requires s == [] || s[|s| - 1] == NEWLINE
    ensures Unlines(Lines(s)) == s && Without(Lines(s), NEWLINE)
  {
    if s != [] {
      var i := IndexOf(s, NEWLINE);
      LinesJoin(s[i + 1..]);
      UnlinesCons(s[..i], Lines(s[i + 1..]));
      CutAt(s, NEWLINE, i);
    }
  }

  lemma {:induction false} LinesOfJoined(lines: seq<seq<Byte>>)
    requires Without(lines, NEWLINE)
    ensures Lines(Unlines(lines)) == lines
  {
    if lines != [] {
      var first, rest := lines[0], lines[1..];
      assert lines == [first] + rest;
      WithoutCons(first, rest, NEWLINE);
      LinesOfJoined(rest);
      IndexInFront(first, NEWLINE, Unlines(rest));
      FrontAndBack(first, NEWLINE, Unlines(rest));
    }
  }

  // ---- hexadecimal fields ----

  function HexDigit(n: nat): Byte
    requires n < 16
  {
    if n < 10 then 0x30 + n else 0x61 + n - 10
  }

  predicate IsHexDigit(b: Byte) { 0x30 <= b <= 0x39 || 0x61 <= b <= 0x66 }

  function HexValue(b: Byte): (n: nat)
    requires IsHexDigit(b)
    ensures n < 16 && HexDigit(n) == b
  {
    if b <= 0x39 then b - 0x30 else b - 0x61 + 10
  }

  /** `hex`. */
  function Hex(bytes: seq<Byte>): (s: seq<Byte>)
    ensures |s| == 2 * |bytes| && forall b :: b in s ==> IsHexDigit(b)
  {
    if bytes == [] then [] else [HexDigit(bytes[0] / 16), HexDigit(bytes[0] % 16)] + Hex(bytes[1..])
  }

  function FromPairs(s: seq<Byte>): seq<Byte>
    requires |s| % 2 == 0 && forall b :: b in s ==> IsHexDigit(b)
  {
    if s == [] then []
    else
      assert s[0] in s && s[1] in s;
      [16 * HexValue(s[0]) + HexValue(s[1])] + FromPairs(s[2..])
  }

  /** `unhex`: lowercase digits only. */
  function Unhex(s: seq<Byte>): Option<seq<Byte>> {
    if |s| % 2 != 0 || exists b :: b in s && !IsHexDigit(b) then None else Some(FromPairs(s))
  }

  lemma {:induction false} PairsOfHex(bytes: seq<Byte>)
    ensures FromPairs(Hex(bytes)) == bytes
  {
    if bytes != [] {
      PairsOfHex(bytes[1..]);
      assert Hex(bytes)[2..] == Hex(bytes[1..]);
    }
  }

  lemma PairOfNumber(hi: nat, lo: nat)
    requires lo < 16
    ensures (16 * hi + lo) / 16 == hi && (16 * hi + lo) % 16 == lo
  {
  }

  lemma {:induction false} HexOfPairs(s: seq<Byte>)
    requires |s| % 2 == 0 && forall b :: b in s ==> IsHexDigit(b)
    ensures Hex(FromPairs(s)) == s
  {
    if s != [] {
      HexOfPairs(s[2..]);
      assert s[0] in s && s[1] in s;
      PairOfNumber(HexValue(s[0]), HexValue(s[1]));
      var bytes := FromPairs(s);
      assert bytes[1..] == FromPairs(s[2..]);
      assert s == [s[0], s[1]] + s[2..];
    }
  }

  /** Lowercase digits, and the text of the magic line. */
  lemma Spelling()
    ensures forall n: nat :: n < 16 ==> HexDigit(n) as char == "0123456789abcdef"[n]
    ensures Latin(MAGIC) == "GELCORPUS082\n"
  {
  }

  /** Every byte string has one hexadecimal form. */
  lemma {:induction false} UnhexIsExact(s: seq<Byte>, bytes: seq<Byte>)
    ensures Unhex(s) == Some(bytes) <==> s == Hex(bytes)
  {
    if Unhex(s).Some? {
      HexOfPairs(s);
    }
    PairsOfHex(bytes);
  }

  // ---- numbers ----

  function Latin(field: seq<Byte>): string {
    seq(|field|, i requires 0 <= i < |field| => field[i] as char)
  }

  /** The digits of a number as bytes. */
  function Digits(n: nat): (field: seq<Byte>)
    ensures Latin(field) == Decimal(n) && forall b :: b in field ==> 0x30 <= b <= 0x39
  {
    var s := Decimal(n);
    assert forall i :: 0 <= i < |s| ==> s[i] in s && IsDigit(s[i]);
    seq(|s|, i requires 0 <= i < |s| => s[i] as int)
  }

  lemma LatinIsInjective(a: seq<Byte>, b: seq<Byte>)
    requires Latin(a) == Latin(b)
    ensures a == b
  {
    assert |a| == |Latin(a)| == |b|;
    forall i | 0 <= i < |a|
      ensures a[i] == b[i]
    {
      assert Latin(a)[i] == Latin(b)[i];
    }
  }

  /** `number`: parsed as u64 and refused unless it is the canonical decimal form. */
  function Number(field: seq<Byte>): Option<nat> {
    match ParseUsize(Latin(field))
    case None => None
    case Some(v) => if Decimal(v) == Latin(field) then Some(v) else None
  }

  lemma NumberIsExact(field: seq<Byte>, v: nat)
    ensures Number(field) == Some(v) <==> v <= USIZE_MAX && field == Digits(v)
  {
    if v <= USIZE_MAX {
      DecimalParses(v);
    }
    if Latin(field) == Decimal(v) {
      LatinIsInjective(field, Digits(v));
    }
  }

  // ---- labels ----

  predicate IsControl(c: char) { c < ' ' || '\U{007F}' <= c <= '\U{009F}' }

  predicate ValidLabel(s: string) {
    TrimStart(s) != [] && forall c :: c in s ==> !IsControl(c)
  }

  /** Some character is not whitespace and none is a control character, by their codes. */
  lemma ValidLabelIsExact(s: string)
    ensures ValidLabel(s) <==>
      && (exists c :: c in s &&
            var n := c as int;
            !(9 <= n <= 13 || 8192 <= n <= 8202 || n in {32, 133, 160, 5760, 8232, 8233, 8239, 8287, 12288}))
      && forall c :: c in s ==> var n := c as int; 31 < n < 127 || 159 < n
  {
    var k := TrimmedIsExact(s);
    forall c: char
      ensures IsControl(c) <==> !(31 < c as int < 127 || 159 < c as int)
    {
    }
    forall c | c in s
      ensures IsWhitespace(c) <==>
        var n := c as int;
        9 <= n <= 13 || 8192 <= n <= 8202 || n in {32, 133, 160, 5760, 8232, 8233, 8239, 8287, 12288}
    {
      WhitespaceCodes(c);
    }
    hide IsWhitespace, IsControl;
    assert k < |s| ==> s[k] in s && !IsWhitespace(s[k]);
    assert k == |s| ==> forall c :: c in s ==> IsWhitespace(c);
  }

  /** `label`. */
  function Label(field: seq<Byte>, lib: Library): Result<string, CatalogError> {
    if |field| > MAX_LABEL then Err(Limit)
    else
      var bytes := Unhex(field);
      var text := if bytes.Some? then lib.utf8(bytes.value) else None;
      if text.None? || !ValidLabel(text.value) then Err(Format) else Ok(text.value)
  }

  lemma LabelIsExact(field: seq<Byte>, s: string, lib: Library)
    requires Faithful(lib)
    ensures Label(field, lib) == Ok(s) <==>
      ValidLabel(s) && 2 * |lib.encode(s)| <= MAX_LABEL && field == Hex(lib.encode(s))
  {
    UnhexIsExact(field, lib.encode(s));
    if Label(field, lib) == Ok(s) {
      assert lib.utf8(Unhex(field).value) == Some(s);
    }
    assert lib.utf8(lib.encode(s)) == Some(s);
  }

  // ---- lines ----

  /** The first five fields. */
  datatype LineNumbers = LineNumbers(node: nat, role: nat, entry: nat, start: nat, len: nat)

  function Numbers(f: seq<seq<Byte>>): Option<LineNumbers>
    requires |f| == 8
  {
    var a, b, c, d, e := Number(f[0]), Number(f[1]), Number(f[2]), Number(f[3]), Number(f[4]);
    if a.None? || b.None? || c.None? || d.None? || e.None? then None
    else Some(LineNumbers(a.value, b.value, c.value, d.value, e.value))
  }

  /** `text.get(start..end)` succeeds. */
  predicate InText(text: seq<Byte>, start: nat, end: nat) {
    start <= end <= |text| && IsBoundary(text, start) && IsBoundary(text, end)
  }

  /** One line, with the checks in their order. */
  function DecodeLine(line: seq<Byte>, text: seq<Byte>, lib: Library): Result<Row, CatalogError> {
    DecodeFields(Split(line, TAB, 9), text, lib)
  }

  function DecodeFields(f: seq<seq<Byte>>, text: seq<Byte>, lib: Library): Result<Row, CatalogError> {
    if |f| != 8 || Numbers(f).None? then Err(Format)
    else
      var n := Numbers(f).value;
      if n.len == 0 || n.len > MAX_PASSAGE || n.start + n.len > USIZE_MAX then Err(Limit)
      else if !InText(text, n.start, n.start + n.len) then Err(Format)
      else
        match PassageFault(f[5], lib.digest(text[n.start..n.start + n.len]))
        case Some(e) => Err(e)
        case None => Labelled(f[6], f[7], Address(n.node, n.role), n.entry, n.start, n.start + n.len, lib)
  }

  /** The hash field against the hash of the passage. */
  function PassageFault(field: seq<Byte>, hash: seq<Byte>): Option<CatalogError> {
    if |field| != 2 * HASH_BYTES || Unhex(field).None? then Some(Format)
    else if hash != Unhex(field).value then Some(Integrity)
    else None
  }

  function Labelled(title: seq<Byte>, section: seq<Byte>, a: Address, entry: nat, start: nat, end: nat, lib: Library)
    : Result<Row, CatalogError>
  {
    match Label(title, lib)
    case Err(e) => Err(e)
    case Ok(t) =>
      match Label(section, lib)
      case Err(e) => Err(e)
      case Ok(s) => Ok(Row(a, entry, start, end, t, s))
  }

  lemma DecodedFits(line: seq<Byte>, text: seq<Byte>, lib: Library)
    requires DecodeLine(line, text, lib).Ok?
    ensures Fits(DecodeLine(line, text, lib).value, text)
  {
    hide Split, Numbers, Label, Unhex;
  }

  /** A row that can be written. */
  predicate Writable(r: Row, text: seq<Byte>, lib: Library) {
    && Fits(r, text) && r.end <= USIZE_MAX
    && r.address.node <= USIZE_MAX && r.address.role <= USIZE_MAX && r.entry <= USIZE_MAX
    && ValidLabel(r.title) && 2 * |lib.encode(r.title)| <= MAX_LABEL
    && ValidLabel(r.section) && 2 * |lib.encode(r.section)| <= MAX_LABEL
  }

  /** The fields of a row. */
  function FieldsOf(r: Row, text: seq<Byte>, lib: Library): (f: seq<seq<Byte>>)
    requires Fits(r, text)
    ensures |f| == 8
  {
    [Digits(r.address.node), Digits(r.address.role), Digits(r.entry), Digits(r.start), Digits(r.end - r.start),
     Hex(lib.digest(text[r.start..r.end])), Hex(lib.encode(r.title)), Hex(lib.encode(r.section))]
  }

  function LineOf(r: Row, text: seq<Byte>, lib: Library): seq<Byte>
    requires Fits(r, text)
  {
    Joined(FieldsOf(r, text, lib), TAB)
  }

  lemma FieldsAreClean(r: Row, text: seq<Byte>, lib: Library)
    requires Fits(r, text)
    ensures forall p :: p in FieldsOf(r, text, lib) ==> forall b :: b in p ==> b >= 0x30
  {
  }

  lemma NumbersAreExact(f: seq<seq<Byte>>, n: LineNumbers)
    requires |f| == 8
    ensures Numbers(f) == Some(n) <==>
      && n.node <= USIZE_MAX && n.role <= USIZE_MAX && n.entry <= USIZE_MAX && n.start <= USIZE_MAX
      && n.len <= USIZE_MAX && f[0] == Digits(n.node) && f[1] == Digits(n.role) && f[2] == Digits(n.entry)
      && f[3] == Digits(n.start) && f[4] == Digits(n.len)
  {
    NumberIsExact(f[0], n.node);
    NumberIsExact(f[1], n.role);
    NumberIsExact(f[2], n.entry);
    NumberIsExact(f[3], n.start);
    NumberIsExact(f[4], n.len);
  }

  lemma {:induction false} PassageIsExact(field: seq<Byte>, hash: seq<Byte>)
    requires |hash| == HASH_BYTES
    ensures PassageFault(field, hash).None? <==> field == Hex(hash)
  {
    UnhexIsExact(field, hash);
  }

  lemma LabelsAreExact(f: seq<seq<Byte>>, r: Row, lib: Library)
    requires Faithful(lib) && |f| == 8
    ensures Labelled(f[6], f[7], r.address, r.entry, r.start, r.end, lib) == Ok(r) <==>
      && ValidLabel(r.title) && 2 * |lib.encode(r.title)| <= MAX_LABEL && f[6] == Hex(lib.encode(r.title))
      && ValidLabel(r.section) && 2 * |lib.encode(r.section)| <= MAX_LABEL && f[7] == Hex(lib.encode(r.section))
  {
    hide Label, Faithful;
    LabelIsExact(f[6], r.title, lib);
    LabelIsExact(f[7], r.section, lib);
  }

  lemma DecodedFields(f: seq<seq<Byte>>, r: Row, text: seq<Byte>, lib: Library)
    requires Faithful(lib) && DecodeFields(f, text, lib) == Ok(r)
    ensures Writable(r, text, lib) && f == FieldsOf(r, text, lib)
  {
    hide Numbers, PassageFault, ValidLabel, Hex, Digits, IsBoundary;
    var n := Numbers(f).value;
    NumbersAreExact(f, n);
    PassageIsExact(f[5], lib.digest(text[r.start..r.end]));
    LabelsAreExact(f, r, lib);
  }

  lemma FieldsDecode(f: seq<seq<Byte>>, r: Row, text: seq<Byte>, lib: Library)
    requires Faithful(lib) && Writable(r, text, lib) && f == FieldsOf(r, text, lib)
    ensures DecodeFields(f, text, lib) == Ok(r)
  {
    hide Numbers, PassageFault, ValidLabel, Hex, Digits, IsBoundary, Labelled;
    NumbersAreExact(f, LineNumbers(r.address.node, r.address.role, r.entry, r.start, r.end - r.start));
    PassageIsExact(f[5], lib.digest(text[r.start..r.end]));
    LabelsAreExact(f, r, lib);
  }

  /** A line decodes to a row exactly when it is the line of that row. */
  lemma LineIsCanonical(line: seq<Byte>, r: Row, text: seq<Byte>, lib: Library)
    requires Faithful(lib)
    ensures DecodeLine(line, text, lib) == Ok(r) <==> Writable(r, text, lib) && line == LineOf(r, text, lib)
  {
    hide Split, Joined, DecodeFields, FieldsOf, Faithful;
    if DecodeLine(line, text, lib) == Ok(r) {
      DecodedFields(Split(line, TAB, 9), r, text, lib);
      SplitJoins(line, TAB, 9);
    } else if Writable(r, text, lib) && line == LineOf(r, text, lib) {
      FieldsAreClean(r, text, lib);
      SplitOfJoined(FieldsOf(r, text, lib), TAB, 9);
      FieldsDecode(FieldsOf(r, text, lib), r, text, lib);
    }
  }

  /** Which check refuses a line of eight fields whose first five are the numbers `n`. */
  lemma {:induction false} LineReason(line: seq<Byte>, n: LineNumbers, text: seq<Byte>, lib: Library)
    requires Faithful(lib)
    ensures var f := Split(line, TAB, 9);
      |f| != 8 || Numbers(f).None? ==> DecodeLine(line, text, lib) == Err(Format)
    ensures var f, r := Split(line, TAB, 9), DecodeLine(line, text, lib);
      |f| == 8 && Numbers(f) == Some(n) ==>
        if n.len == 0 || n.len > 32_768 || n.start + n.len > USIZE_MAX then r == Err(Limit)
        else if !InText(text, n.start, n.start + n.len) then r == Err(Format)
        else HashReason(f, lib.digest(text[n.start..n.start + n.len]), lib, r)
  {
    hide Split, Numbers, Label, Unhex, IsBoundary, PassageFault, HashReason, Labelled;
    var f := Split(line, TAB, 9);
    if |f| == 8 && Numbers(f) == Some(n) && n.len > 0 && n.len <= 32_768 && n.start + n.len <= USIZE_MAX {
      if InText(text, n.start, n.start + n.len) {
        var hash := lib.digest(text[n.start..n.start + n.len]);
        FaultReason(f, hash, n, lib);
      }
    }
  }

  /** The verdict on the last three fields, given the hash of the passage. */
  ghost predicate HashReason(f: seq<seq<Byte>>, hash: seq<Byte>, lib: Library, r: Result<Row, CatalogError>)
    requires |f| == 8
  {
    if !exists h :: |h| == HASH_BYTES && f[5] == Hex(h) then r == Err(Format)
    else if f[5] != Hex(hash) then r == Err(Integrity)
    else if |f[6]| > 1024 then r == Err(Limit)
    else if Label(f[6], lib).Err? then r == Err(Format)
    else if |f[7]| > 1024 then r == Err(Limit)
    else if Label(f[7], lib).Err? then r == Err(Format)
    else r.Ok?
  }

  lemma FaultReason(f: seq<seq<Byte>>, hash: seq<Byte>, n: LineNumbers, lib: Library)
    requires |f| == 8 && |hash| == HASH_BYTES
    ensures HashReason(f, hash, lib, match PassageFault(f[5], hash)
      case Some(e) => Err(e)
      case None => Labelled(f[6], f[7], Address(n.node, n.role), n.entry, n.start, n.start + n.len, lib))
  {
    hide ValidLabel, Hex, FromPairs;
    UnhexIsExact(f[5], hash);
    if |f[5]| == 2 * HASH_BYTES && Unhex(f[5]).Some? {
      UnhexIsExact(f[5], Unhex(f[5]).value);
    }
    forall h: seq<Byte> | |h| == HASH_BYTES && f[5] == Hex(h)
      ensures |f[5]| == 2 * HASH_BYTES && Unhex(f[5]) == Some(h)
    {
      UnhexIsExact(f[5], h);
    }
  }

  // ---- the frame ----

  /** The catalog starts with the magic line, ends a line and has no carriage return. */
  predicate HasFrame(catalog: seq<Byte>) {
    MAGIC <= catalog && catalog[|catalog| - 1] == NEWLINE && RETURN !in catalog
  }

  function Body(catalog: seq<Byte>): seq<seq<Byte>>
    requires HasFrame(catalog)
  {
    Lines(catalog[|MAGIC|..])
  }

  // ---- all lines ----

  predicate AllDecode(lines: seq<seq<Byte>>, text: seq<Byte>, lib: Library) {
    forall i :: 0 <= i < |lines| ==> DecodeLine(lines[i], text, lib).Ok?
  }

  function RowsOf(lines: seq<seq<Byte>>, text: seq<Byte>, lib: Library): (rows: seq<Row>)
    requires AllDecode(lines, text, lib)
    ensures |rows| == |lines|
  {
    seq(|lines|, i requires 0 <= i < |lines| => DecodeLine(lines[i], text, lib).value)
  }

  /** The lines decode, within the limit, and the rows are consistent. */
  predicate Loads(lines: seq<seq<Byte>>, text: seq<Byte>, lib: Library) {
    |lines| <= MAX_RECORDS && AllDecode(lines, text, lib) && Consistent(RowsOf(lines, text, lib), text)
  }

  /** Why the next line is refused after the lines `seen`. */
  function LineFault(seen: seq<seq<Byte>>, line: seq<Byte>, text: seq<Byte>, lib: Library): CatalogError
    requires AllDecode(seen, text, lib)
  {
    if |seen| >= MAX_RECORDS then Limit
    else
      match DecodeLine(line, text, lib)
      case Err(e) => e
      case Ok(row) => RowFault(RowsOf(seen, text, lib), row)
  }

  /** Reading stops at line `i`: the lines before it load, and with it they do not. */
  predicate StopsAt(lines: seq<seq<Byte>>, text: seq<Byte>, lib: Library, i: nat, e: CatalogError) {
    && i < |lines| && Loads(lines[..i], text, lib) && !Loads(lines[..i] + [lines[i]], text, lib)
    && e == LineFault(lines[..i], lines[i], text, lib)
  }

  lemma LoadsSnoc(seen: seq<seq<Byte>>, line: seq<Byte>, text: seq<Byte>, lib: Library)
    ensures Loads(seen + [line], text, lib) <==>
      && Loads(seen, text, lib) && |seen| < MAX_RECORDS && DecodeLine(line, text, lib).Ok?
      && Consistent(RowsOf(seen, text, lib) + [DecodeLine(line, text, lib).value], text)
    ensures Loads(seen + [line], text, lib) ==>
      RowsOf(seen + [line], text, lib) == RowsOf(seen, text, lib) + [DecodeLine(line, text, lib).value]
  {
    hide DecodeLine, Consistent;
    var grown := seen + [line];
    if AllDecode(grown, text, lib) {
      assert forall i :: 0 <= i < |seen| ==> grown[i] == seen[i];
      assert grown[|seen|] == line;
      assert RowsOf(grown, text, lib) == RowsOf(seen, text, lib) + [DecodeLine(line, text, lib).value];
      ConsistentSnoc(RowsOf(seen, text, lib), DecodeLine(line, text, lib).value, text);
    }
  }

  lemma {:induction false} PrefixLoads(lines: seq<seq<Byte>>, n: nat, text: seq<Byte>, lib: Library)
    requires n <= |lines| && Loads(lines, text, lib)
    ensures Loads(lines[..n], text, lib)
    decreases |lines| - n
  {
    hide Loads;
    if n < |lines| {
      PrefixLoads(lines, n + 1, text, lib);
      assert lines[..n + 1] == lines[..n] + [lines[n]];
      LoadsSnoc(lines[..n], lines[n], text, lib);
    } else {
      assert lines[..n] == lines;
    }
  }

  /** Reading can stop at one line only, and with one error. */
  lemma StopIsUnique(lines: seq<seq<Byte>>, text: seq<Byte>, lib: Library, i: nat, j: nat,
                     d: CatalogError, e: CatalogError)
    requires StopsAt(lines, text, lib, i, d) && StopsAt(lines, text, lib, j, e)
    ensures i == j && d == e && !Loads(lines, text, lib)
  {
    hide Loads, LineFault;
    var k, n := if i < j then i else j, if i < j then j else i;
    assert lines[..k + 1] == lines[..k] + [lines[k]];
    if k < n {
      assert lines[..n][..k + 1] == lines[..k + 1];
      PrefixLoads(lines[..n], k + 1, text, lib);
    }
    if Loads(lines, text, lib) {
      PrefixLoads(lines, k + 1, text, lib);
    }
  }

  /** The line at which reading stops is one too many, does not decode, contradicts an earlier line of its
      node, or repeats an earlier address: the first of these that applies is the error. */
  lemma StopReason(lines: seq<seq<Byte>>, text: seq<Byte>, lib: Library, i: nat, e: CatalogError)
    requires StopsAt(lines, text, lib, i, e)
    ensures if i >= 50_000 then e == Limit
      else
        match DecodeLine(lines[i], text, lib)
        case Err(error) => e == error
        case Ok(row) =>
          var rows := RowsOf(lines[..i], text, lib);
          if exists j :: 0 <= j < i && rows[j].address.node == row.address.node &&
               (rows[j].entry != row.entry || rows[j].title != row.title) then e == Format
          else e == Duplicate && exists j :: 0 <= j < i && rows[j].address == row.address
  {
    hide DecodeLine, Fits;
    LoadsSnoc(lines[..i], lines[i], text, lib);
    if i < 50_000 && DecodeLine(lines[i], text, lib).Ok? {
      var rows, row := RowsOf(lines[..i], text, lib), DecodeLine(lines[i], text, lib).value;
      DecodedFits(lines[i], text, lib);
      ConsistentSnoc(rows, row, text);
      RowReason(rows, row);
    }
  }

  lemma RowReason(rows: seq<Row>, row: Row)
    requires exists r :: r in rows && (!SameEntry(r, row) || r.address == row.address)
    ensures RowFault(rows, row) ==
      if exists j :: 0 <= j < |rows| && rows[j].address.node == row.address.node &&
           (rows[j].entry != row.entry || rows[j].title != row.title) then Format
      else Duplicate
    ensures RowFault(rows, row) == Duplicate ==> exists j :: 0 <= j < |rows| && rows[j].address == row.address
  {
  }

  /** One turn of the loop of `load`. */
  method NextLine(m: Maps, line: seq<Byte>, text: seq<Byte>, lib: Library, ghost seen: seq<seq<Byte>>)
    returns (r: Result<Maps, CatalogError>)
    requires Loads(seen, text, lib) && Tracks(m, RowsOf(seen, text, lib), text, lib.normalize)
    ensures r.Ok? <==> Loads(seen + [line], text, lib)
    ensures r.Ok? ==> Tracks(r.value, RowsOf(seen + [line], text, lib), text, lib.normalize)
    ensures r.Err? ==> r.error == LineFault(seen, line, text, lib)
  {
    hide DecodeLine, Consistent;
    LoadsSnoc(seen, line, text, lib);
    if |m.records| >= MAX_RECORDS {
      return Err(Limit);
    }
    var row := DecodeLine(line, text, lib);
    if row.Err? {
      return Err(row.error);
    }
    DecodedFits(line, text, lib);
    r := AddRow(m, row.value, text, lib.normalize, RowsOf(seen, text, lib));
  }

  lemma NoLines(lines: seq<seq<Byte>>, text: seq<Byte>, lib: Library)
    ensures Loads(lines[..0], text, lib) && RowsOf(lines[..0], text, lib) == []
  {
  }

  method ReadLines(lines: seq<seq<Byte>>, text: seq<Byte>, lib: Library) returns (r: Result<Maps, CatalogError>)
    ensures r.Ok? <==> Loads(lines, text, lib)
    ensures r.Ok? ==> Tracks(r.value, RowsOf(lines, text, lib), text, lib.normalize)
    ensures r.Err? ==> exists i :: StopsAt(lines, text, lib, i, r.error)
  {
    hide DecodeLine, Consistent, LineFault;
    var m := Maps([], map[], map[]);
    NothingRead(text, lib.normalize);
    NoLines(lines, text, lib);
    for i := 0 to |lines|
      invariant Loads(lines[..i], text, lib)
      invariant Tracks(m, RowsOf(lines[..i], text, lib), text, lib.normalize)
    {
      var next := NextLine(m, lines[i], text, lib, lines[..i]);
      assert lines[..i + 1] == lines[..i] + [lines[i]];
      if next.Err? {
        assert StopsAt(lines, text, lib, i, next.error);
        StopIsUnique(lines, text, lib, i, i, next.error, next.error);
        return Err(next.error);
      }
      m := next.value;
    }
    assert lines[..|lines|] == lines;
    return Ok(m);
  }

  /** What a loaded corpus holds: at most 50000 records, in the order of their addresses, each a nonempty
      passage cut between characters of the text; records of one node share entry and title. */
  ghost predicate IsCorpus(c: Corpus) {
    && 1 <= |c.records| <= 50_000
    && (forall i, j :: 0 <= i < j < |c.records| ==>
          var a, b := c.records[i].address, c.records[j].address;
          a.node < b.node || (a.node == b.node && a.role < b.role))
    && (forall r :: r in c.records ==>
          && r.start < r.end <= |c.text| && r.end - r.start <= 32_768
          && (r.start > 0 ==> !(0x80 <= c.text[r.start] < 0xC0))
          && (r.end < |c.text| ==> !(0x80 <= c.text[r.end] < 0xC0)))
    && (forall a, b :: a in c.records && b in c.records && a.address.node == b.address.node ==>
          a.entry == b.entry && a.title == b.title)
  }

  lemma LoadedIsCorpus(c: Corpus, rows: seq<Row>, normalize: string -> string)
    requires LoadedFrom(c, rows, normalize) && 1 <= |rows| <= MAX_RECORDS
    ensures IsCorpus(c)
  {
    assert forall a, b :: a in c.records && b in c.records ==> SameEntry(a, b);
    assert forall r :: r in c.records ==> Fits(r, c.text);
  }

  /** `load`. */
  method Load(catalog: seq<Byte>, text: seq<Byte>, catalogPin: seq<Byte>, textPin: seq<Byte>, lib: Library)
    returns (r: Result<Corpus, CatalogError>)
    ensures |catalog| > MAX_CATALOG || |text| > MAX_TEXT ==> r == Err(Limit)
    ensures
      && |catalog| <= MAX_CATALOG && |text| <= MAX_TEXT
      && (lib.digest(catalog) != catalogPin || lib.digest(text) != textPin)
      ==> r == Err(Integrity)
    ensures
      && |catalog| <= MAX_CATALOG && |text| <= MAX_TEXT
      && lib.digest(catalog) == catalogPin && lib.digest(text) == textPin
      ==>
      if lib.utf8(catalog).None? || lib.utf8(text).None? || !HasFrame(catalog) then r == Err(Format)
      else
        var lines := Body(catalog);
        && (r.Ok? <==> lines != [] && Loads(lines, text, lib))
        && (r.Ok? ==> r.value.text == text && LoadedFrom(r.value, RowsOf(lines, text, lib), lib.normalize))
        && (r.Err? ==> if lines == [] then r.error == Format else exists i :: StopsAt(lines, text, lib, i, r.error))
    ensures r.Ok? ==>
      && lib.digest(catalog) == catalogPin && lib.digest(text) == textPin
      && |catalog| <= MAX_CATALOG && |text| <= MAX_TEXT
      && lib.utf8(catalog).Some? && lib.utf8(text).Some? && HasFrame(catalog)
      && IsCorpus(r.value)
  {
    if |catalog| > MAX_CATALOG || |text| > MAX_TEXT {
      return Err(Limit);
    }
    if lib.digest(catalog) != catalogPin || lib.digest(text) != textPin {
      return Err(Integrity);
    }
    if lib.utf8(catalog).None? || lib.utf8(text).None? || !HasFrame(catalog) {
      return Err(Format);
    }
    var read := ReadLines(Body(catalog), text, lib);
    if read.Err? {
      return Err(read.error);
    }
    if |read.value.records| == 0 {
      return Err(Format);
    }
    r := Ok(Corpus(text, read.value.records, read.value.titles));
    LoadedIsCorpus(r.value, RowsOf(Body(catalog), text, lib), lib.normalize);
  }

  // ---- one image per catalog ----

  predicate AllWritable(rows: seq<Row>, text: seq<Byte>, lib: Library) {
    forall i :: 0 <= i < |rows| ==> Writable(rows[i], text, lib)
  }

  function LinesOf(rows: seq<Row>, text: seq<Byte>, lib: Library): (lines: seq<seq<Byte>>)
    requires AllWritable(rows, text, lib)
    ensures |lines| == |rows|
  {
    seq(|rows|, i requires 0 <= i < |rows| => LineOf(rows[i], text, lib))
  }

  /** The bytes a list of rows is written as. */
  function Image(rows: seq<Row>, text: seq<Byte>, lib: Library): seq<Byte>
    requires AllWritable(rows, text, lib)
  {
    MAGIC + Unlines(LinesOf(rows, text, lib))
  }

  lemma LinesAreCanonical(lines: seq<seq<Byte>>, rows: seq<Row>, text: seq<Byte>, lib: Library)
    requires Faithful(lib) && |lines| == |rows|
    ensures AllDecode(lines, text, lib) && RowsOf(lines, text, lib) == rows <==>
      AllWritable(rows, text, lib) && LinesOf(rows, text, lib) == lines
  {
    hide DecodeLine, LineOf, Faithful, ValidLabel, IsBoundary;
    forall i | 0 <= i < |rows|
      ensures DecodeLine(lines[i], text, lib) == Ok(rows[i]) <==>
        Writable(rows[i], text, lib) && lines[i] == LineOf(rows[i], text, lib)
    {
      LineIsCanonical(lines[i], rows[i], text, lib);
    }
  }

  lemma {:induction false} JoinedClean(parts: seq<seq<Byte>>)
    requires forall p :: p in parts ==> forall b :: b in p ==> b >= 0x30
    ensures forall b :: b in Joined(parts, TAB) ==> b == TAB || b >= 0x30
  {
    if |parts| > 1 {
      assert forall p :: p in parts[1..] ==> p in parts;
      JoinedClean(parts[1..]);
      assert parts[0] in parts;
    } else if |parts| == 1 {
      assert parts[0] in parts;
    }
  }

  lemma {:induction false} UnlinesClean(lines: seq<seq<Byte>>)
    requires Without(lines, RETURN)
    ensures RETURN !in Unlines(lines)
    ensures lines != [] ==> Unlines(lines) != [] && Unlines(lines)[|Unlines(lines)| - 1] == NEWLINE
  {
    if lines != [] {
      assert lines[0] in lines && Without(lines[1..], RETURN);
      UnlinesClean(lines[1..]);
    }
  }

  lemma ImageIsFramed(rows: seq<Row>, text: seq<Byte>, lib: Library)
    requires AllWritable(rows, text, lib)
    ensures HasFrame(Image(rows, text, lib)) && Body(Image(rows, text, lib)) == LinesOf(rows, text, lib)
  {
    hide LinesOf, Unlines, Lines, Without, AllWritable, HasFrame;
    var lines := LinesOf(rows, text, lib);
    LinesAreClean(rows, text, lib);
    UnlinesClean(lines);
    LinesOfJoined(lines);
    if lines == [] {
      NothingUnlined(lines);
    }
    FrameOf(Unlines(lines));
  }

  lemma {:induction false} NothingUnlined(lines: seq<seq<Byte>>)
    requires lines == []
    ensures Unlines(lines) == []
  {
  }

  lemma FrameOf(body: seq<Byte>)
    requires RETURN !in body && (body == [] || body[|body| - 1] == NEWLINE)
    ensures HasFrame(MAGIC + body) && (MAGIC + body)[|MAGIC|..] == body
  {
  }

  lemma LinesAreClean(rows: seq<Row>, text: seq<Byte>, lib: Library)
    requires AllWritable(rows, text, lib)
    ensures Without(LinesOf(rows, text, lib), NEWLINE) && Without(LinesOf(rows, text, lib), RETURN)
  {
    var lines := LinesOf(rows, text, lib);
    forall line | line in lines
      ensures NEWLINE !in line && RETURN !in line
    {
      var i :| 0 <= i < |rows| && lines[i] == line;
      LineIsClean(rows[i], text, lib);
    }
  }

  lemma LineIsClean(r: Row, text: seq<Byte>, lib: Library)
    requires Fits(r, text)
    ensures NEWLINE !in LineOf(r, text, lib) && RETURN !in LineOf(r, text, lib)
  {
    hide FieldsOf, Joined;
    FieldsAreClean(r, text, lib);
    JoinedClean(FieldsOf(r, text, lib));
  }

  /** A framed catalog decodes to some rows exactly when it is their image: no two catalogs have the same
      rows, and all rows that can be written are read back. */
  lemma CatalogIsImage(catalog: seq<Byte>, rows: seq<Row>, text: seq<Byte>, lib: Library)
    requires Faithful(lib)
    ensures HasFrame(catalog) && AllDecode(Body(catalog), text, lib) && RowsOf(Body(catalog), text, lib) == rows <==>
      AllWritable(rows, text, lib) && catalog == Image(rows, text, lib)
  {
    hide Faithful, Writable, DecodeLine, LineOf;
    if HasFrame(catalog) && |Body(catalog)| == |rows| {
      LinesAreCanonical(Body(catalog), rows, text, lib);
      LastByte(catalog);
      LinesJoin(catalog[|MAGIC|..]);
      assert catalog == MAGIC + catalog[|MAGIC|..];
    }
    if AllWritable(rows, text, lib) {
      ImageIsFramed(rows, text, lib);
    }
  }

  lemma LastByte(catalog: seq<Byte>)
    requires HasFrame(catalog)
    ensures var body := catalog[|MAGIC|..]; body == [] || body[|body| - 1] == NEWLINE
  {
  }

  /** The catalog is the image of rows that may stand together: at most 50000, no address twice, and one entry
      and title for each node. */
  ghost predicate IsCatalogOf(catalog: seq<Byte>, rows: seq<Row>, text: seq<Byte>, lib: Library) {
    && 1 <= |rows| <= 50_000 && AllWritable(rows, text, lib) && catalog == Image(rows, text, lib)
    && forall i, j :: 0 <= i < j < |rows| ==>
         && rows[i].address != rows[j].address
         && (rows[i].address.node == rows[j].address.node ==>
               rows[i].entry == rows[j].entry && rows[i].title == rows[j].title)
  }

  lemma ConsistentPairs(rows: seq<Row>, text: seq<Byte>)
    ensures Consistent(rows, text) <==>
      && (forall i :: 0 <= i < |rows| ==> Fits(rows[i], text))
      && forall i, j :: 0 <= i < j < |rows| ==>
           && rows[i].address != rows[j].address
           && (rows[i].address.node == rows[j].address.node ==>
                 rows[i].entry == rows[j].entry && rows[i].title == rows[j].title)
  {
    hide Fits;
    if Consistent(rows, text) {
      forall i, j | 0 <= i < j < |rows|
        ensures SameEntry(rows[i], rows[j])
      {
        assert rows[i] in rows && rows[j] in rows;
      }
    }
  }

  /** The catalogs that pass the frame and all line checks are exactly the images of such rows. */
  lemma LoadsExactlyImages(catalog: seq<Byte>, text: seq<Byte>, lib: Library)
    requires Faithful(lib)
    ensures HasFrame(catalog) && Body(catalog) != [] && Loads(Body(catalog), text, lib) <==>
      exists rows :: IsCatalogOf(catalog, rows, text, lib)
  {
    hide Faithful, DecodeLine, LineOf, HasFrame, Consistent, Image, ValidLabel, IsBoundary;
    if HasFrame(catalog) && Body(catalog) != [] && Loads(Body(catalog), text, lib) {
      var rows := RowsOf(Body(catalog), text, lib);
      CatalogIsImage(catalog, rows, text, lib);
      ConsistentPairs(rows, text);
      assert IsCatalogOf(catalog, rows, text, lib);
    }
    forall rows | IsCatalogOf(catalog, rows, text, lib)
      ensures HasFrame(catalog) && Body(catalog) != [] && Loads(Body(catalog), text, lib)
    {
      CatalogIsImage(catalog, rows, text, lib);
      ConsistentPairs(rows, text);
    }
  }
}
