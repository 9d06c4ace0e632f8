/** The source corpus of `gel-source`: the maps filled by `load`, title lookup and label classification.
    The text is a byte string; `normalize` stands for the trimming and lowercasing of titles. */
module SourceParts {
  import opened Words
  import opened Wrappers

  const MAX_TEXT: nat := 64 * 1024 * 1024
  const MAX_RECORDS: nat := 50_000
  const MAX_PASSAGE: nat := 32_768
  const USIZE_MAX: nat := 0xFFFF_FFFF_FFFF_FFFF

  datatype Address = Address(node: nat, role: nat)

  datatype Row = Row(address: Address, entry: nat, start: nat, end: nat, title: string, section: string)

  /** `records` is the map by address, kept as the ascending list that iteration walks. */
  datatype Corpus = Corpus(text: seq<Byte>, records: seq<Row>, titles: map<string, seq<nat>>)

  datatype CatalogError = Limit | Integrity | Format | Duplicate | Missing

  datatype Passage = Passage(record: Row, quote: seq<Byte>)

  datatype LeadError =
    | MissingTitle
    | AmbiguousTitle
    | MissingLead
    | MixedLayout
    | InvalidNumbering
    | DuplicatePart
    | Gap
    | InvalidExpectedCount
    | OutputLimit
    | CountMismatch(expected: nat, actual: nat)

  // ---- the catalog ----

  predicate Before(a: Address, b: Address) {
    a.node < b.node || (a.node == b.node && a.role < b.role)
  }

  predicate Ascending(rows: seq<Row>) {
    forall i, j :: 0 <= i < j < |rows| ==> Before(rows[i].address, rows[j].address)
  }

  predicate Holds(rows: seq<Row>, a: Address) {
    exists r :: r in rows && r.address == a
  }

  /** How many records of the ordered map come before an address. */
  function Place(rows: seq<Row>, a: Address): (p: nat)
    ensures p <= |rows|
    ensures forall i :: 0 <= i < p ==> Before(rows[i].address, a)
    ensures p < |rows| ==> !Before(rows[p].address, a)
  {
    if rows == [] || !Before(rows[0].address, a) then 0 else 1 + Place(rows[1..], a)
  }

  function Lookup(rows: seq<Row>, a: Address): (r: Option<Row>)
    ensures r.Some? ==> r.value in rows && r.value.address == a
  {
    var p := Place(rows, a);
    if p < |rows| && rows[p].address == a then Some(rows[p]) else None
  }

  lemma LookupFinds(rows: seq<Row>, a: Address)
    requires Ascending(rows)
    ensures Lookup(rows, a).Some? <==> Holds(rows, a)
    ensures forall r :: r in rows && r.address == a ==> Lookup(rows, a) == Some(r)
  {
    forall r | r in rows && r.address == a
      ensures Lookup(rows, a) == Some(r)
    {
      var i :| 0 <= i < |rows| && rows[i] == r;
      AtPlace(rows, i);
    }
  }

  lemma {:induction false} AtPlace(rows: seq<Row>, i: nat)
    requires Ascending(rows) && i < |rows|
    ensures Place(rows, rows[i].address) == i
  {
    assert forall k :: 0 <= k < i ==> Before(rows[k].address, rows[i].address);
    assert !Before(rows[i].address, rows[i].address);
  }

  predicate NodeSeen(rows: seq<Row>, node: nat) {
    exists r :: r in rows && r.address.node == node
  }

  /** Some row of node `x` has the normalized title `key`. */
  predicate Carries(rows: seq<Row>, x: nat, key: string, normalize: string -> string) {
    exists r :: r in rows && r.address.node == x && normalize(r.title) == key
  }

  predicate SameEntry(a: Row, b: Row) {
    a.address.node == b.address.node ==> a.entry == b.entry && a.title == b.title
  }

  /** Rows of one node agree on its entry and title, no address occurs twice, and every
      passage lies inside the text. */
  predicate Consistent(rows: seq<Row>, text: seq<Byte>) {
    && (forall a, b :: a in rows && b in rows ==> SameEntry(a, b))
    && (forall i, j :: 0 <= i < j < |rows| ==> rows[i].address != rows[j].address)
    && forall r :: r in rows ==> Fits(r, text)
  }

  /** A string may be cut here: the byte is not a continuation byte of UTF-8. */
  predicate IsBoundary(text: seq<Byte>, i: nat) {
    i == 0 || i == |text| || (i < |text| && !(0x80 <= text[i] < 0xC0))
  }

  /** Exactly the bytes of the form 10xxxxxx continue a character. */
  lemma BoundaryIsExact(text: seq<Byte>, i: nat)
    ensures IsBoundary(text, i) <==> i <= |text| && (0 < i < |text| ==> text[i] / 64 != 2)
  {
  }

  predicate Fits(r: Row, text: seq<Byte>) {
    && r.start < r.end <= |text| && IsBoundary(text, r.start) && IsBoundary(text, r.end)
    && r.end - r.start <= MAX_PASSAGE
  }

  lemma ConsistentSnoc(rows: seq<Row>, row: Row, text: seq<Byte>)
    ensures Consistent(rows + [row], text) <==>
      && Consistent(rows, text) && Fits(row, text)
      && forall r :: r in rows ==> SameEntry(r, row) && r.address != row.address
  {
    var grown := rows + [row];
    if Consistent(grown, text) {
      forall i, j | 0 <= i < j < |rows|
        ensures rows[i].address != rows[j].address
      {
        assert grown[i].address != grown[j].address;
      }
      forall r | r in rows
        ensures SameEntry(r, row) && r.address != row.address
      {
        var i :| 0 <= i < |rows| && rows[i] == r;
        assert grown[i].address != grown[|rows|].address;
        assert r in grown && row in grown;
      }
      assert forall r :: r in rows ==> r in grown;
      assert row in grown;
    }
  }

  lemma {:induction false} PrefixConsistent(rows: seq<Row>, n: nat, text: seq<Byte>)
    requires n <= |rows| && Consistent(rows, text)
    ensures Consistent(rows[..n], text)
    decreases |rows| - n
  {
    if n < |rows| {
      PrefixConsistent(rows, n + 1, text);
      assert rows[..n + 1] == rows[..n] + [rows[n]];
      ConsistentSnoc(rows[..n], rows[n], text);
    } else {
      assert rows[..n] == rows;
    }
  }

  /** The nodes whose normalized title is `key`, once each, in first-seen order. */
  function FirstSeen(rows: seq<Row>, key: string, normalize: string -> string): seq<nat> {
    if rows == [] then []
    else
      var earlier := rows[..|rows| - 1];
      var row := rows[|rows| - 1];
      FirstSeen(earlier, key, normalize) +
      if !NodeSeen(earlier, row.address.node) && normalize(row.title) == key then [row.address.node] else []
  }

  predicate Unrepeated(xs: seq<nat>) {
    forall i, j :: 0 <= i < j < |xs| ==> xs[i] != xs[j]
  }

  /** The list of a title names exactly the nodes that carry it, each once. */
  lemma {:induction false} FirstSeenIsExact(rows: seq<Row>, text: seq<Byte>, key: string, normalize: string -> string)
    requires Consistent(rows, text)
    ensures forall x :: x in FirstSeen(rows, key, normalize) <==> Carries(rows, x, key, normalize)
    ensures Unrepeated(FirstSeen(rows, key, normalize))
  {
    if rows != [] {
      var n := |rows| - 1;
      var earlier, row := rows[..n], rows[n];
      assert rows == earlier + [row];
      ConsistentSnoc(earlier, row, text);
      FirstSeenIsExact(earlier, text, key, normalize);
      forall x
        ensures Carries(rows, x, key, normalize) <==>
          Carries(earlier, x, key, normalize) ||
          (x == row.address.node && normalize(row.title) == key)
      {
        CarriesSnoc(earlier, row, x, key, normalize);
      }
      var before, node := FirstSeen(earlier, key, normalize), row.address.node;
      if NodeSeen(earlier, node) {
        var r :| r in earlier && r.address.node == node;
        assert SameEntry(r, row);
        assert FirstSeen(rows, key, normalize) == before;
      } else if normalize(row.title) == key {
        assert node !in before;
        assert FirstSeen(rows, key, normalize) == before + [node];
      }
    }
  }

  lemma CarriesSnoc(rows: seq<Row>, row: Row, x: nat, key: string, normalize: string -> string)
    ensures Carries(rows + [row], x, key, normalize) <==>
      Carries(rows, x, key, normalize) || (x == row.address.node && normalize(row.title) == key)
  {
    if Carries(rows, x, key, normalize) {
      var r :| r in rows && r.address.node == x && normalize(r.title) == key;
      assert r in rows + [row];
    }
    assert row in rows + [row];
  }

  /** Some row of node `x` stands before every row of node `y`. */
  predicate SeenBefore(rows: seq<Row>, x: nat, y: nat) {
    exists a :: 0 <= a < |rows| && rows[a].address.node == x &&
      forall b :: 0 <= b <= a ==> rows[b].address.node != y
  }

  lemma SeenStays(rows: seq<Row>, row: Row, x: nat, y: nat)
    requires SeenBefore(rows, x, y)
    ensures SeenBefore(rows + [row], x, y)
  {
    var a :| 0 <= a < |rows| && rows[a].address.node == x && forall b :: 0 <= b <= a ==> rows[b].address.node != y;
    assert (rows + [row])[a] == rows[a];
  }

  lemma NewIsLater(rows: seq<Row>, row: Row, x: nat)
    requires NodeSeen(rows, x) && !NodeSeen(rows, row.address.node)
    ensures SeenBefore(rows + [row], x, row.address.node)
  {
    var r :| r in rows && r.address.node == x;
    var a :| 0 <= a < |rows| && rows[a] == r;
    assert (rows + [row])[a].address.node == x;
    forall b | 0 <= b <= a
      ensures (rows + [row])[b].address.node != row.address.node
    {
      assert rows[b] in rows;
    }
  }

  lemma {:induction false} FirstSeenIsSeen(rows: seq<Row>, key: string, normalize: string -> string)
    ensures forall x :: x in FirstSeen(rows, key, normalize) ==> NodeSeen(rows, x)
  {
    if rows != [] {
      var n := |rows| - 1;
      FirstSeenIsSeen(rows[..n], key, normalize);
      assert rows == rows[..n] + [rows[n]];
      assert forall x :: NodeSeen(rows[..n], x) ==> NodeSeen(rows, x);
      assert rows[n] in rows;
    }
  }

  predicate InOrderOfSight(rows: seq<Row>, xs: seq<nat>) {
    forall i, j :: 0 <= i < j < |xs| ==> SeenBefore(rows, xs[i], xs[j])
  }

  lemma SightGrows(rows: seq<Row>, row: Row, xs: seq<nat>)
    requires InOrderOfSight(rows, xs)
    ensures InOrderOfSight(rows + [row], xs)
  {
    hide SeenBefore;
    forall i, j | 0 <= i < j < |xs|
      ensures SeenBefore(rows + [row], xs[i], xs[j])
    {
      SeenStays(rows, row, xs[i], xs[j]);
    }
  }

  lemma SightSnoc(rows: seq<Row>, row: Row, xs: seq<nat>)
    requires InOrderOfSight(rows + [row], xs) && !NodeSeen(rows, row.address.node)
    requires forall x :: x in xs ==> NodeSeen(rows, x)
    ensures InOrderOfSight(rows + [row], xs + [row.address.node])
  {
    hide SeenBefore, NodeSeen;
    forall i | 0 <= i < |xs|
      ensures SeenBefore(rows + [row], xs[i], row.address.node)
    {
      assert xs[i] in xs;
      NewIsLater(rows, row, xs[i]);
    }
  }

  /** The nodes of a title are listed in the order in which they first occur. */
  lemma {:induction false} FirstSeenOrder(rows: seq<Row>, key: string, normalize: string -> string)
    ensures InOrderOfSight(rows, FirstSeen(rows, key, normalize))
  {
    if rows != [] {
      hide NodeSeen, InOrderOfSight;
      var n := |rows| - 1;
      var earlier, row := rows[..n], rows[n];
      var before := FirstSeen(earlier, key, normalize);
      assert rows == earlier + [row];
      FirstSeenOrder(earlier, key, normalize);
      FirstSeenIsSeen(earlier, key, normalize);
      SightGrows(earlier, row, before);
      if !NodeSeen(earlier, row.address.node) && normalize(row.title) == key {
        SightSnoc(earlier, row, before);
      } else {
        assert FirstSeen(rows, key, normalize) == before;
      }
    }
  }

  function Listed(titles: map<string, seq<nat>>, key: string): seq<nat> {
    if key in titles then titles[key] else []
  }

  /** `titles` lists, under every key, the nodes of `rows` first seen with that title. */
  ghost predicate IsIndex(titles: map<string, seq<nat>>, rows: seq<Row>, normalize: string -> string) {
    forall key :: Listed(titles, key) == FirstSeen(rows, key, normalize)
  }

  lemma IndexSnoc(titles: map<string, seq<nat>>, rows: seq<Row>, row: Row, normalize: string -> string)
    requires IsIndex(titles, rows, normalize)
    ensures NodeSeen(rows, row.address.node) ==> IsIndex(titles, rows + [row], normalize)
    ensures !NodeSeen(rows, row.address.node) ==>
      var key := normalize(row.title);
      IsIndex(titles[key := Listed(titles, key) + [row.address.node]], rows + [row], normalize)
  {
    var grown, node := rows + [row], row.address.node;
    assert grown[..|rows|] == rows && grown[|rows|] == row;
    if !NodeSeen(rows, node) {
      var title := normalize(row.title);
      var longer := titles[title := Listed(titles, title) + [node]];
      forall key
        ensures Listed(longer, key) == FirstSeen(grown, key, normalize)
      {
        assert Listed(titles, key) == FirstSeen(rows, key, normalize);
      }
    }
  }

  /** `nodes` holds the entry and title of every node of `rows`. */
  ghost predicate IsRegister(nodes: map<nat, (nat, string)>, rows: seq<Row>) {
    && (forall x :: x in nodes <==> NodeSeen(rows, x))
    && forall r :: r in rows ==> r.address.node in nodes && nodes[r.address.node] == (r.entry, r.title)
  }

  lemma RegisterSnoc(nodes: map<nat, (nat, string)>, rows: seq<Row>, row: Row)
    requires IsRegister(nodes, rows)
    ensures (row.address.node in nodes ==> nodes[row.address.node] == (row.entry, row.title)) <==>
      forall r :: r in rows ==> SameEntry(r, row)
    ensures (forall r :: r in rows ==> SameEntry(r, row)) ==>
      IsRegister(nodes[row.address.node := (row.entry, row.title)], rows + [row])
  {
    var grown := rows + [row];
    assert row in grown;
    forall x
      ensures NodeSeen(grown, x) <==> NodeSeen(rows, x) || x == row.address.node
    {
      if NodeSeen(rows, x) {
        var r :| r in rows && r.address.node == x;
        assert r in grown;
      }
    }
  }

  /** `records` is the ordered map of `rows` by address. */
  ghost predicate IsRecords(records: seq<Row>, rows: seq<Row>) {
    && Ascending(records) && |records| == |rows|
    && forall r :: r in records <==> r in rows
  }

  lemma {:induction false} RecordsSnoc(records: seq<Row>, rows: seq<Row>, row: Row)
    requires IsRecords(records, rows)
    ensures Lookup(records, row.address).None? <==> forall r :: r in rows ==> r.address != row.address
    ensures Lookup(records, row.address).None? ==>
      var p := Place(records, row.address);
      IsRecords(records[..p] + [row] + records[p..], rows + [row])
  {
    LookupFinds(records, row.address);
    var p := Place(records, row.address);
    if Lookup(records, row.address).None? {
      InsertedAscends(records, row, p);
      var grown := records[..p] + [row] + records[p..];
      forall r
        ensures r in grown <==> r in records || r == row
      {
        assert records == records[..p] + records[p..];
      }
    }
  }

  lemma {:induction false} InsertedAscends(records: seq<Row>, row: Row, p: nat)
    requires Ascending(records) && p == Place(records, row.address) && !Holds(records, row.address)
    ensures Ascending(records[..p] + [row] + records[p..])
  {
    forall q | p <= q < |records|
      ensures Before(row.address, records[q].address)
    {
      assert records[q] in records;
      assert p < q ==> Before(records[p].address, records[q].address);
      assert records[p] in records;
    }
  }

  /** What `load` promises about the catalog rows it accepted. */
  ghost predicate LoadedFrom(c: Corpus, rows: seq<Row>, normalize: string -> string) {
    IsRecords(c.records, rows) && IsIndex(c.titles, rows, normalize) && Consistent(rows, c.text)
  }

  /** The three maps of `load`, and what they hold after some rows. */
  datatype Maps = Maps(records: seq<Row>, titles: map<string, seq<nat>>, nodes: map<nat, (nat, string)>)

  ghost predicate Tracks(m: Maps, rows: seq<Row>, text: seq<Byte>, normalize: string -> string) {
    && IsRecords(m.records, rows) && IsIndex(m.titles, rows, normalize) && IsRegister(m.nodes, rows)
    && Consistent(rows, text)
  }

  /** Why a decoded row is refused after the rows `seen`. */
  function RowFault(seen: seq<Row>, row: Row): CatalogError {
    if exists r :: r in seen && !SameEntry(r, row) then Format else Duplicate
  }

  /** One row of `load`: it is accepted exactly when the rows stay consistent. */
  method AddRow(m: Maps, row: Row, ghost text: seq<Byte>, normalize: string -> string, ghost seen: seq<Row>)
    returns (r: Result<Maps, CatalogError>)
    requires Tracks(m, seen, text, normalize) && Fits(row, text)
    ensures r.Ok? <==> Consistent(seen + [row], text)
    ensures r.Ok? ==> Tracks(r.value, seen + [row], text, normalize)
    ensures r.Err? ==> r.error == RowFault(seen, row)
  {
    ConsistentSnoc(seen, row, text);
    RegisterSnoc(m.nodes, seen, row);
    RecordsSnoc(m.records, seen, row);
    IndexSnoc(m.titles, seen, row, normalize);
    var node, titles, nodes := row.address.node, m.titles, m.nodes;
    if node in nodes {
      if nodes[node] != (row.entry, row.title) {
        return Err(Format);
      }
      assert nodes == nodes[node := (row.entry, row.title)];
    } else {
      nodes := nodes[node := (row.entry, row.title)];
      var key := normalize(row.title);
      titles := titles[key := Listed(titles, key) + [node]];
    }
    if Lookup(m.records, row.address).Some? {
      return Err(Duplicate);
    }
    var p := Place(m.records, row.address);
    return Ok(Maps(m.records[..p] + [row] + m.records[p..], titles, nodes));
  }

  lemma NothingRead(text: seq<Byte>, normalize: string -> string)
    ensures Tracks(Maps([], map[], map[]), [], text, normalize)
  {
  }

  function FindTitle(c: Corpus, title: string, normalize: string -> string): seq<nat> {
    Listed(c.titles, normalize(title))
  }

  /** A lookup answers one node exactly when that node alone carries the title. */
  lemma TitleIsUnique(c: Corpus, rows: seq<Row>, title: string, normalize: string -> string, node: nat)
    requires LoadedFrom(c, rows, normalize)
    ensures FindTitle(c, title, normalize) == [node] <==>
      forall x :: Carries(rows, x, normalize(title), normalize) <==> x == node
  {
    FirstSeenIsExact(rows, c.text, normalize(title), normalize);
    assert FindTitle(c, title, normalize) == FirstSeen(rows, normalize(title), normalize);
    OneMember(FindTitle(c, title, normalize), node);
  }

  lemma OneMember(xs: seq<nat>, x: nat)
    requires Unrepeated(xs)
    ensures xs == [x] <==> forall y: nat :: y in xs <==> y == x
  {
    if forall y: nat :: y in xs <==> y == x {
      assert x in xs && xs[0] in xs;
      assert xs[|xs| - 1] in xs;
    }
  }

  function Sections(records: seq<Row>, node: nat): (rows: seq<Row>)
    ensures forall r :: r in rows <==> r in records && r.address.node == node
  {
    if records == [] then []
    else (if records[0].address.node == node then [records[0]] else []) + Sections(records[1..], node)
  }

  function Quote(c: Corpus, a: Address): (r: Result<Passage, CatalogError>)
    requires forall x :: x in c.records ==> Fits(x, c.text)
  {
    match Lookup(c.records, a)
    case None => Err(Missing)
    case Some(record) =>
      assert Fits(record, c.text);
      Ok(Passage(record, c.text[record.start..record.end]))
  }

  // ---- labels ----

  predicate IsWhitespace(c: char) {
    || '\U{0009}' <= c <= '\U{000D}' || c == ' ' || c == '\U{0085}' || c == '\U{00A0}' || c == '\U{1680}'
    || '\U{2000}' <= c <= '\U{200A}' || c == '\U{2028}' || c == '\U{2029}' || c == '\U{202F}'
    || c == '\U{205F}' || c == '\U{3000}'
  }

  /** The characters by their codes. */
  lemma WhitespaceCodes(c: char)
    ensures IsWhitespace(c) <==>
      var n := c as int;
      9 <= n <= 13 || 8192 <= n <= 8202 || n in {32, 133, 160, 5760, 8232, 8233, 8239, 8287, 12288}
  {
  }

  function TrimStart(s: string): string {
    if s != [] && IsWhitespace(s[0]) then TrimStart(s[1..]) else s
  }

  /** Trimming takes off the first `k` characters, all whitespace, and stops at one that is not. */
  predicate TrimsAt(s: string, k: nat) {
    && k <= |s| && TrimStart(s) == s[k..]
    && (forall i :: 0 <= i < k ==> IsWhitespace(s[i])) && (k < |s| ==> !IsWhitespace(s[k]))
  }

  lemma {:induction false} TrimmedIsExact(s: string) returns (k: nat)
    ensures TrimsAt(s, k)
  {
    hide IsWhitespace;
    if s != [] && IsWhitespace(s[0]) {
      var rest := s[1..];
      var m := TrimmedIsExact(rest);
      k := m + 1;
      assert rest[m..] == s[k..];
      assert forall i :: 1 <= i < |s| ==> s[i] == rest[i - 1];
    } else {
      k := 0;
      assert s[0..] == s;
    }
  }

  predicate IsDigit(c: char) { '0' <= c <= '9' }

  function DigitsValue(s: string): nat
    requires forall c :: c in s ==> IsDigit(c)
  {
    if s == [] then 0
    else
      assert s[|s| - 1] in s && IsDigit(s[|s| - 1]);
      10 * DigitsValue(s[..|s| - 1]) + (s[|s| - 1] as int - '0' as int)
  }

  /** Integer parsing as the standard library does it: an optional plus sign, then digits. */
  function ParseUsize(s: string): Option<nat> {
    var digits := if s != [] && s[0] == '+' then s[1..] else s;
    if digits == [] || exists c :: c in digits && !IsDigit(c) then None
    else if DigitsValue(digits) > USIZE_MAX then None
    else Some(DigitsValue(digits))
  }

  function Decimal(n: nat): (s: string)
    ensures s != [] && forall c :: c in s ==> IsDigit(c)
  {
    (if n < 10 then [] else Decimal(n / 10)) + [(n % 10 + '0' as int) as char]
  }

  lemma {:induction false} DecimalParses(n: nat)
    requires n <= USIZE_MAX
    ensures ParseUsize(Decimal(n)) == Some(n)
  {
    DecimalValue(n);
    assert Decimal(n)[0] in Decimal(n);
  }

  lemma {:induction false} DecimalValue(n: nat)
    ensures DigitsValue(Decimal(n)) == n
  {
    var front := if n < 10 then [] else Decimal(n / 10);
    if n >= 10 {
      DecimalValue(n / 10);
    }
    DigitsSnoc(front, n % 10);
  }

  lemma DigitsSnoc(s: string, d: nat)
    requires d < 10 && forall c :: c in s ==> IsDigit(c)
    ensures var grown := s + [(d + '0' as int) as char];
      (forall c :: c in grown ==> IsDigit(c)) && DigitsValue(grown) == 10 * DigitsValue(s) + d
  {
    var grown := s + [(d + '0' as int) as char];
    assert grown[..|grown| - 1] == s;
  }

  lemma {:induction false} NoLeadingZero(n: nat)
    ensures n > 0 ==> Decimal(n)[0] != '0'
    ensures n == 0 ==> Decimal(n) == "0"
  {
    if n >= 10 {
      NoLeadingZero(n / 10);
    }
  }

  lemma LastDigit(s: string)
    requires s != [] && forall c :: c in s ==> IsDigit(c)
    ensures var front, last := s[..|s| - 1], s[|s| - 1];
      && IsDigit(last) && (forall c :: c in front ==> IsDigit(c))
      && DigitsValue(front) == DigitsValue(s) / 10 && last as int == '0' as int + DigitsValue(s) % 10
  {
    assert s[|s| - 1] in s;
  }

  lemma {:induction false} PositiveValue(s: string)
    requires s != [] && (forall c :: c in s ==> IsDigit(c)) && s[0] != '0'
    ensures DigitsValue(s) > 0
  {
    LastDigit(s);
    if |s| > 1 {
      PositiveValue(s[..|s| - 1]);
    } else {
      assert s[0] in s;
    }
  }

  lemma {:induction false} CanonicalIsDecimal(s: string)
    requires s != [] && (forall c :: c in s ==> IsDigit(c)) && (|s| > 1 ==> s[0] != '0')
    ensures s == Decimal(DigitsValue(s))
  {
    var front, last := s[..|s| - 1], s[|s| - 1];
    LastDigit(s);
    assert s == front + [last];
    if |s| > 1 {
      PositiveValue(front);
      CanonicalIsDecimal(front);
    } else {
      assert front == [];
    }
  }

  /** The decimal form is the one string of digits with this value and no leading zero. */
  lemma {:induction false} DecimalIsCanonical(n: nat, s: string)
    ensures s == Decimal(n) <==>
      && s != [] && (forall c :: c in s ==> IsDigit(c)) && DigitsValue(s) == n && (|s| > 1 ==> s[0] != '0')
  {
    DecimalValue(n);
    NoLeadingZero(n);
    if s != [] && (forall c :: c in s ==> IsDigit(c)) && (|s| > 1 ==> s[0] != '0') {
      CanonicalIsDecimal(s);
    }
  }

  datatype Part = Part(family: nat, number: Option<nat>)

  const FAMILIES: seq<string> := ["Lead", "WST\U{0118}P"]

  function StripPrefix(s: string, prefix: string): (r: Option<string>)
    ensures forall t :: r == Some(t) <==> s == prefix + t
  {
    if prefix <= s then Some(s[|prefix|..]) else None
  }

  function StripSuffix(s: string, suffix: string): (r: Option<string>)
    ensures forall t :: r == Some(t) <==> s == t + suffix
  {
    var n := |s| - |suffix|;
    if n >= 0 && s[n..] == suffix then
      assert s == s[..n] + s[n..];
      Some(s[..n])
    else
      None
  }

  /** The number of a suffix that looks like a parenthesis. */
  function PartNumber(suffix: string): Result<nat, LeadError> {
    var number := match StripPrefix(suffix, " (") case None => None case Some(s) => StripSuffix(s, ")");
    if number.None? then Err(InvalidNumbering)
    else
      match ParseUsize(number.value)
      case None => Err(InvalidNumbering)
      case Some(n) =>
        if n == 0 || n > MAX_RECORDS || number.value != Decimal(n) then Err(InvalidNumbering) else Ok(n)
  }

  predicate LooksNumbered(suffix: string) {
    var trimmed := TrimStart(suffix);
    trimmed != [] && trimmed[0] == '('
  }

  /** The heading is the bare family name, or continues it with an opening parenthesis. */
  predicate Claims(heading: string, family: nat)
    requires family < |FAMILIES|
  {
    heading == FAMILIES[family] || Reserves(heading, family)
  }

  predicate Reserves(heading: string, family: nat)
    requires family < |FAMILIES|
  {
    var suffix := StripPrefix(heading, FAMILIES[family]);
    suffix.Some? && LooksNumbered(suffix.value)
  }

  /** The family name, then whitespace or nothing, then an opening parenthesis at `k`. */
  predicate OpensAfter(heading: string, name: string, k: nat) {
    && name <= heading && |name| <= k < |heading| && heading[k] == '('
    && forall i :: |name| <= i < k ==> IsWhitespace(heading[i])
  }

  /** What is trimmed to an opening parenthesis. */
  lemma LooksNumberedIsExact(name: string, suffix: string)
    ensures LooksNumbered(suffix) <==> exists k :: OpensAfter(name + suffix, name, k)
  {
    var k := TrimmedIsExact(suffix);
    assert !IsWhitespace('(');
    hide IsWhitespace;
    var heading, n := name + suffix, |name|;
    if LooksNumbered(suffix) {
      assert OpensAfter(heading, name, n + k);
    }
    forall m: nat | OpensAfter(heading, name, m)
      ensures LooksNumbered(suffix)
    {
      assert heading[m] == suffix[m - n];
      assert k < m - n ==> heading[n + k] == suffix[k];
    }
  }

  lemma ReservesIsExact(heading: string, family: nat)
    requires family < |FAMILIES|
    ensures Reserves(heading, family) <==> exists k :: OpensAfter(heading, FAMILIES[family], k)
  {
    var name := FAMILIES[family];
    hide LooksNumbered;
    if name <= heading {
      var suffix := heading[|name|..];
      assert heading == name + suffix;
      LooksNumberedIsExact(name, suffix);
    }
  }

  function ClassifyFrom(heading: string, family: nat): Result<Option<Part>, LeadError>
    decreases |FAMILIES| - family
  {
    if family >= |FAMILIES| then Ok(None)
    else if heading == FAMILIES[family] then Ok(Some(Part(family, None)))
    else if Reserves(heading, family) then
      match PartNumber(StripPrefix(heading, FAMILIES[family]).value)
      case Err(e) => Err(e)
      case Ok(n) => Ok(Some(Part(family, Some(n))))
    else ClassifyFrom(heading, family + 1)
  }

  function Classify(heading: string): Result<Option<Part>, LeadError> {
    ClassifyFrom(heading, 0)
  }

  /** The one label of a part. */
  function LabelOf(p: Part): string
    requires p.family < |FAMILIES|
  {
    FAMILIES[p.family] + match p.number case None => "" case Some(n) => Numbered(n)
  }

  function Numbered(n: nat): string { " (" + Decimal(n) + ")" }

  predicate ValidPart(p: Part) {
    p.family < |FAMILIES| && (p.number.Some? ==> 1 <= p.number.value <= MAX_RECORDS)
  }

  lemma PartNumberIsExact(suffix: string, n: nat)
    ensures PartNumber(suffix) == Ok(n) <==> 1 <= n <= MAX_RECORDS && suffix == Numbered(n)
    ensures PartNumber(suffix).Err? ==> PartNumber(suffix).error == InvalidNumbering
  {
    if 1 <= n <= MAX_RECORDS && suffix == Numbered(n) {
      DecimalParses(n);
      assert suffix == " (" + (Decimal(n) + ")");
    }
    if PartNumber(suffix) == Ok(n) {
      assert suffix == " (" + (Decimal(n) + ")");
    }
  }

  lemma NumberedLooksSo(n: nat)
    ensures LooksNumbered(Numbered(n)) && !LooksNumbered("")
  {
    assert Numbered(n)[1..] == "(" + Decimal(n) + ")";
  }

  /** Each family decides the headings it claims, and no heading is claimed twice. */
  lemma {:induction false} ClaimedIsDecided(heading: string, f: nat, p: Part)
    requires f < |FAMILIES| && Claims(heading, f)
    ensures ClassifyFrom(heading, f) == Ok(Some(p)) <==>
      p.family == f && ValidPart(p) && heading == LabelOf(p)
    ensures ClassifyFrom(heading, f) == Classify(heading) && Classify(heading) != Ok(None)
    ensures Classify(heading).Err? ==> Classify(heading).error == InvalidNumbering
    ensures forall g :: 0 <= g < |FAMILIES| && g != f ==> !Claims(heading, g)
  {
    assert forall g :: 0 <= g < |FAMILIES| && g != f ==> FAMILIES[g][0] != heading[0];
    assert ClassifyFrom(heading, 0) == ClassifyFrom(heading, f);
    NumberedLooksSo(1);
    var suffix := StripPrefix(heading, FAMILIES[f]).value;
    assert heading == FAMILIES[f] + suffix;
    match p.number
    case None =>
      assert FAMILIES[f] + "" == FAMILIES[f];
    case Some(n) =>
      PartNumberIsExact(suffix, n);
      assert heading == FAMILIES[f] + Numbered(n) <==> suffix == Numbered(n);
  }

  lemma LabelIsClaimed(p: Part)
    requires ValidPart(p)
    ensures Claims(LabelOf(p), p.family)
  {
    if p.number.Some? {
      NumberedLooksSo(p.number.value);
      assert StripPrefix(LabelOf(p), FAMILIES[p.family]) == Some(Numbered(p.number.value));
    }
  }

  /** Every part has exactly one label. */
  lemma ClassifyIsExact(heading: string, p: Part)
    ensures Classify(heading) == Ok(Some(p)) <==> ValidPart(p) && heading == LabelOf(p)
  {
    if ValidPart(p) && heading == LabelOf(p) {
      LabelIsClaimed(p);
    }
    if f :| 0 <= f < |FAMILIES| && Claims(heading, f) {
      ClaimedIsDecided(heading, f, p);
    } else {
      UnclaimedIsIgnored(heading);
    }
  }

  lemma UnclaimedIsIgnored(heading: string)
    requires forall f :: 0 <= f < |FAMILIES| ==> !Claims(heading, f)
    ensures Classify(heading) == Ok(None)
  {
    assert !Claims(heading, 0) && !Claims(heading, 1);
    assert ClassifyFrom(heading, 0) == ClassifyFrom(heading, 1) == ClassifyFrom(heading, 2);
  }

  /** A reserved heading that is no part's label is refused, and nothing else is. */
  lemma RefusalIsExact(heading: string)
    ensures Classify(heading).Err? <==>
      && (exists f, k :: 0 <= f < |FAMILIES| && OpensAfter(heading, FAMILIES[f], k))
      && forall q :: ValidPart(q) ==> heading != LabelOf(q)
    ensures Classify(heading).Err? ==> Classify(heading).error == InvalidNumbering
  {
    forall f | 0 <= f < |FAMILIES|
      ensures Reserves(heading, f) <==> exists k :: OpensAfter(heading, FAMILIES[f], k)
    {
      ReservesIsExact(heading, f);
    }
    forall q
      ensures Classify(heading) == Ok(Some(q)) <==> ValidPart(q) && heading == LabelOf(q)
    {
      ClassifyIsExact(heading, q);
    }
    if f :| 0 <= f < |FAMILIES| && Claims(heading, f) {
      ClaimedIsDecided(heading, f, Part(f, None));
      BareIsALabel(f);
    } else {
      UnclaimedIsIgnored(heading);
    }
  }

  lemma BareIsALabel(f: nat)
    requires f < |FAMILIES|
    ensures ValidPart(Part(f, None)) && LabelOf(Part(f, None)) == FAMILIES[f]
  {
  }
}
