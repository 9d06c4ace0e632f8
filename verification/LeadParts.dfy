/** `lead_parts`: the multipart lead of one title, read in part order from a loaded corpus. */
module LeadParts {
  import opened Counting
  import opened Wrappers
  import opened SourceParts

  datatype Outcome = Outcome(record: Row, kind: Result<Option<Part>, LeadError>)

  /** A section whose heading is the label of a part. */
  datatype Lead = Lead(record: Row, part: Part)

  /** The sections of a node with what their headings were classified as. */
  function Outcomes(rows: seq<Row>): (outcomes: seq<Outcome>)
    ensures |outcomes| == |rows|
    ensures forall i :: 0 <= i < |rows| ==> outcomes[i] == Outcome(rows[i], Classify(rows[i].section))
  {
    seq(|rows|, i requires 0 <= i < |rows| => Outcome(rows[i], Classify(rows[i].section)))
  }

  function LeadOf(o: Outcome): seq<Lead> {
    if o.kind.Ok? && o.kind.value.Some? then [Lead(o.record, o.kind.value.value)] else []
  }

  function Leads(outcomes: seq<Outcome>): seq<Lead> {
    if outcomes == [] then []
    else Leads(outcomes[..|outcomes| - 1]) + LeadOf(outcomes[|outcomes| - 1])
  }

  function NumberOf(l: Lead): nat {
    if l.part.number.Some? then l.part.number.value else 1
  }

  function LayoutOf(l: Lead): (nat, bool) {
    (l.part.family, l.part.number.Some?)
  }

  function Length(r: Row): int {
    r.end - r.start
  }

  function TotalBytes(leads: seq<Lead>): int {
    if leads == [] then 0
    else
      var l := leads[|leads| - 1];
      TotalBytes(leads[..|leads| - 1]) + Length(l.record)
  }

  predicate HasNumber(leads: seq<Lead>, n: nat) {
    exists l :: l in leads && NumberOf(l) == n
  }

  predicate Joins(leads: seq<Lead>, l: Lead) {
    !HasNumber(leads, NumberOf(l)) && forall k :: k in leads ==> LayoutOf(k) == LayoutOf(l)
  }

  /** One layout, and no number twice. */
  predicate Compatible(leads: seq<Lead>) {
    forall i, j :: 0 <= i < j < |leads| ==>
      LayoutOf(leads[i]) == LayoutOf(leads[j]) && NumberOf(leads[i]) != NumberOf(leads[j])
  }

  predicate NoRefusal(outcomes: seq<Outcome>) {
    forall o :: o in outcomes ==> o.kind.Ok?
  }

  /** No heading is refused, and the leads are compatible and fit the output. */
  predicate Sound(outcomes: seq<Outcome>) {
    && NoRefusal(outcomes) && Compatible(Leads(outcomes))
    && TotalBytes(Leads(outcomes)) <= MAX_TEXT
  }

  lemma CompatibleSnoc(leads: seq<Lead>, l: Lead)
    ensures Compatible(leads + [l]) <==> Compatible(leads) && Joins(leads, l)
  {
    var grown := leads + [l];
    if Compatible(grown) {
      forall i, j | 0 <= i < j < |leads|
        ensures LayoutOf(leads[i]) == LayoutOf(leads[j]) && NumberOf(leads[i]) != NumberOf(leads[j])
      {
        assert grown[i] == leads[i] && grown[j] == leads[j];
      }
      forall k | k in leads
        ensures LayoutOf(k) == LayoutOf(l) && NumberOf(k) != NumberOf(l)
      {
        var i :| 0 <= i < |leads| && leads[i] == k;
        assert grown[i] == k && grown[|leads|] == l;
      }
    }
  }

  lemma {:induction false} BytesSnoc(leads: seq<Lead>, l: Lead)
    ensures TotalBytes(leads + [l]) == TotalBytes(leads) + Length(l.record)
  {
    assert (leads + [l])[..|leads|] == leads;
  }

  lemma {:induction false} OutcomeSnoc(outcomes: seq<Outcome>, o: Outcome)
    ensures Leads(outcomes + [o]) == Leads(outcomes) + LeadOf(o)
    ensures NoRefusal(outcomes + [o]) <==> NoRefusal(outcomes) && o.kind.Ok?
  {
    assert (outcomes + [o])[..|outcomes|] == outcomes;
    assert o in outcomes + [o];
    assert forall x :: x in outcomes ==> x in outcomes + [o];
  }

  /** The checks the loop makes on one more section. */
  predicate Extends(outcomes: seq<Outcome>, o: Outcome) {
    && o.kind.Ok?
    && (o.kind.value.Some? ==>
          && Joins(Leads(outcomes), Lead(o.record, o.kind.value.value))
          && TotalBytes(Leads(outcomes)) + Length(o.record) <= MAX_TEXT)
  }

  lemma SoundSnoc(outcomes: seq<Outcome>, o: Outcome)
    requires o.record.start <= o.record.end
    ensures Sound(outcomes + [o]) <==> Sound(outcomes) && Extends(outcomes, o)
  {
    OutcomeSnoc(outcomes, o);
    var leads, grown := Leads(outcomes), Leads(outcomes + [o]);
    if LeadOf(o) == [] {
      assert grown == leads;
    } else {
      var l := LeadOf(o)[0];
      assert grown == leads + [l];
      CompatibleSnoc(leads, l);
      BytesSnoc(leads, l);
    }
  }

  lemma OneLessIsSound(outcomes: seq<Outcome>, n: nat)
    requires n < |outcomes| && outcomes[n].record.start <= outcomes[n].record.end && Sound(outcomes[..n + 1])
    ensures Sound(outcomes[..n])
  {
    assert outcomes[..n + 1] == outcomes[..n] + [outcomes[n]];
    SoundSnoc(outcomes[..n], outcomes[n]);
  }

  predicate AllSpanned(outcomes: seq<Outcome>) {
    forall i :: 0 <= i < |outcomes| ==> outcomes[i].record.start <= outcomes[i].record.end
  }

  lemma SoundStepsDown(outcomes: seq<Outcome>)
    requires AllSpanned(outcomes)
    ensures forall j: nat :: j < |outcomes| ==> StepsDown(Sound, outcomes, j)
  {
    forall j: nat | j < |outcomes|
      ensures StepsDown(Sound, outcomes, j)
    {
      if Sound(outcomes[..j + 1]) {
        OneLessIsSound(outcomes, j);
      }
    }
  }

  lemma WholePrefix<T>(s: seq<T>)
    ensures s[..|s|] == s
  {
  }

  lemma NextPrefix<T>(s: seq<T>, i: nat)
    requires i < |s|
    ensures s[..i + 1] == s[..i] + [s[i]]
  {
  }

  lemma RefusedBefore(sound: seq<Outcome> -> bool, outcomes: seq<Outcome>, i: nat, n: nat)
    requires i < n <= |outcomes| && !sound(outcomes[..i] + [outcomes[i]])
    requires forall j: nat :: j < |outcomes| ==> StepsDown(sound, outcomes, j)
    ensures !sound(outcomes[..n])
  {
    NextPrefix(outcomes, i);
    if sound(outcomes[..n]) {
      PrefixClosed(sound, outcomes, i + 1, n);
    }
  }

  lemma RefusedSection(outcomes: seq<Outcome>, i: nat)
    requires i < |outcomes| && !Sound(outcomes[..i] + [outcomes[i]]) && AllSpanned(outcomes)
    ensures !Sound(outcomes)
  {
    SoundStepsDown(outcomes);
    RefusedBefore(Sound, outcomes, i, |outcomes|);
    WholePrefix(outcomes);
  }

  /** `parts` maps the number of every lead to its address, and nothing else. */
  ghost predicate IsParts(parts: map<nat, Address>, leads: seq<Lead>) {
    && |parts| == |leads|
    && (forall l :: l in leads ==> NumberOf(l) in parts && parts[NumberOf(l)] == l.record.address)
    && forall n :: n in parts ==> HasNumber(leads, n)
  }

  lemma PartsSnoc(parts: map<nat, Address>, leads: seq<Lead>, l: Lead)
    requires IsParts(parts, leads) && !HasNumber(leads, NumberOf(l))
    ensures IsParts(parts[NumberOf(l) := l.record.address], leads + [l])
  {
    var grown := leads + [l];
    forall n | n in parts || n == NumberOf(l)
      ensures HasNumber(grown, n)
    {
      if n == NumberOf(l) {
        assert l in grown;
      } else {
        var k :| k in leads && NumberOf(k) == n;
        assert k in grown;
      }
    }
    assert NumberOf(l) !in parts;
  }

  predicate IsLayout(layout: Option<(nat, bool)>, leads: seq<Lead>) {
    (leads == [] ==> layout == None) && forall l :: l in leads ==> layout == Some(LayoutOf(l))
  }

  lemma LayoutDecides(layout: Option<(nat, bool)>, leads: seq<Lead>, l: Lead)
    requires IsLayout(layout, leads)
    ensures layout.Some? && layout.value != LayoutOf(l) <==>
      exists k :: k in leads && LayoutOf(k) != LayoutOf(l)
  {
    if leads != [] {
      assert leads[0] in leads;
    }
  }

  /** Why a lead does not join the ones before it, in the order of the checks. */
  function LeadFault(leads: seq<Lead>, l: Lead): LeadError {
    if exists k :: k in leads && LayoutOf(k) != LayoutOf(l) then MixedLayout
    else if TotalBytes(leads) + Length(l.record) > MAX_TEXT then OutputLimit
    else DuplicatePart
  }

  function OutcomeFault(seen: seq<Outcome>, o: Outcome): LeadError {
    if o.kind.Err? then o.kind.error
    else if o.kind.value.None? then MissingLead
    else LeadFault(Leads(seen), Lead(o.record, o.kind.value.value))
  }

  /** The loop stops at section `i`, the first that breaks soundness. */
  predicate StopsAt(outcomes: seq<Outcome>, i: nat, e: LeadError) {
    && i < |outcomes| && Sound(outcomes[..i]) && !Sound(outcomes[..i] + [outcomes[i]])
    && e == OutcomeFault(outcomes[..i], outcomes[i])
  }

  /** Only one section can be the first, and it has one error. */
  lemma StopIsUnique(outcomes: seq<Outcome>, i: nat, j: nat, d: LeadError, e: LeadError)
    requires AllSpanned(outcomes) && StopsAt(outcomes, i, d) && StopsAt(outcomes, j, e)
    ensures i == j && d == e
  {
    SoundStepsDown(outcomes);
    if i < j {
      RefusedBefore(Sound, outcomes, i, j);
    } else if j < i {
      RefusedBefore(Sound, outcomes, j, i);
    }
  }

  /** The locals of the loop. */
  datatype Gathering = Gathering(layout: Option<(nat, bool)>, parts: map<nat, Address>, bytes: int)

  ghost predicate Gathers(g: Gathering, outcomes: seq<Outcome>) {
    var leads := Leads(outcomes);
    && Sound(outcomes) && g.bytes == TotalBytes(leads)
    && IsParts(g.parts, leads) && IsLayout(g.layout, leads)
  }

  /** One section of the loop: it is accepted exactly when the sections stay sound. */
  method Gather(g: Gathering, o: Outcome, ghost seen: seq<Outcome>) returns (r: Result<Gathering, LeadError>)
    requires Gathers(g, seen) && o.record.start <= o.record.end
    ensures r.Ok? <==> Sound(seen + [o])
    ensures r.Ok? ==> Gathers(r.value, seen + [o])
    ensures r.Err? ==> r.error == OutcomeFault(seen, o)
  {
    SoundSnoc(seen, o);
    OutcomeSnoc(seen, o);
    if o.kind.Err? {
      return Err(o.kind.error);
    }
    if o.kind.value.None? {
      assert Leads(seen + [o]) == Leads(seen);
      return Ok(g);
    }
    r := GatherLead(g, Lead(o.record, o.kind.value.value), Leads(seen));
  }

  method GatherLead(g: Gathering, l: Lead, ghost leads: seq<Lead>) returns (r: Result<Gathering, LeadError>)
    requires g.bytes == TotalBytes(leads) && IsParts(g.parts, leads) && IsLayout(g.layout, leads)
    requires l.record.start <= l.record.end
    ensures r.Ok? <==> Joins(leads, l) && TotalBytes(leads) + Length(l.record) <= MAX_TEXT
    ensures r.Ok? ==> r.value.bytes == TotalBytes(leads + [l])
    ensures r.Ok? ==> IsParts(r.value.parts, leads + [l]) && IsLayout(r.value.layout, leads + [l])
    ensures r.Err? ==> r.error == LeadFault(leads, l)
  {
    LayoutDecides(g.layout, leads, l);
    if g.layout.Some? && g.layout.value != LayoutOf(l) {
      return Err(MixedLayout);
    }
    var bytes := g.bytes + Length(l.record);
    if bytes > MAX_TEXT {
      return Err(OutputLimit);
    }
    if NumberOf(l) in g.parts {
      assert HasNumber(leads, NumberOf(l));
      return Err(DuplicatePart);
    }
    BytesSnoc(leads, l);
    assert !HasNumber(leads, NumberOf(l));
    PartsSnoc(g.parts, leads, l);
    return Ok(Gathering(Some(LayoutOf(l)), g.parts[NumberOf(l) := l.record.address], bytes));
  }

  lemma NothingGathered()
    ensures Gathers(Gathering(None, map[], 0), [])
  {
  }

  lemma StopsHere(g: Gathering, outcomes: seq<Outcome>, i: nat, e: LeadError)
    requires i < |outcomes| && Gathers(g, outcomes[..i]) && AllSpanned(outcomes)
    requires !Sound(outcomes[..i] + [outcomes[i]]) && e == OutcomeFault(outcomes[..i], outcomes[i])
    ensures StopsAt(outcomes, i, e) && !Sound(outcomes)
  {
    RefusedSection(outcomes, i);
  }

  /** The sections of one node, gathered in address order. */
  method GatherAll(rows: seq<Row>) returns (r: Result<Gathering, LeadError>)
    requires forall x :: x in rows ==> x.start <= x.end
    ensures r.Ok? <==> Sound(Outcomes(rows))
    ensures r.Ok? ==> Gathers(r.value, Outcomes(rows))
    ensures r.Err? ==> exists i :: StopsAt(Outcomes(rows), i, r.error)
  {
    hide Sound, Leads, TotalBytes, IsParts, IsLayout, Classify, StopsAt;
    var g := Gathering(None, map[], 0);
    ghost var all := Outcomes(rows);
    NothingGathered();
    for i := 0 to |rows|
      invariant Gathers(g, all[..i])
    {
      assert all[..i + 1] == all[..i] + [Outcome(rows[i], Classify(rows[i].section))];
      var next := Gather(g, Outcome(rows[i], Classify(rows[i].section)), all[..i]);
      if next.Err? {
        StopsHere(g, all, i, next.error);
        return Err(next.error);
      }
      g := next.value;
    }
    assert all[..|rows|] == all;
    return Ok(g);
  }

  ghost predicate ValidCorpus(c: Corpus) {
    Ascending(c.records) && forall r :: r in c.records ==> Fits(r, c.text)
  }

  lemma LoadedIsValid(c: Corpus, rows: seq<Row>, normalize: string -> string)
    requires LoadedFrom(c, rows, normalize)
    ensures ValidCorpus(c)
  {
  }

  function LeadsOf(c: Corpus, node: nat): seq<Lead> {
    Leads(Outcomes(Sections(c.records, node)))
  }

  /** The numbers are exactly 1, 2, ..., n, for the number n >= 1 of leads. */
  ghost predicate Gapless(leads: seq<Lead>) {
    leads != [] && forall n: nat :: HasNumber(leads, n) <==> 1 <= n <= |leads|
  }

  /** The sections of the node make a complete answer, of the expected length if any. */
  ghost predicate Complete(c: Corpus, node: nat, expected: Option<nat>) {
    var leads := LeadsOf(c, node);
    && Sound(Outcomes(Sections(c.records, node))) && Gapless(leads)
    && (expected.Some? ==> expected.value == |leads|)
  }

  /** Which error the sections of one node end in. */
  ghost predicate NodeFails(c: Corpus, node: nat, expected: Option<nat>, e: LeadError) {
    var outcomes, leads := Outcomes(Sections(c.records, node)), LeadsOf(c, node);
    if !Sound(outcomes) then exists i :: StopsAt(outcomes, i, e) else PartsFail(leads, expected, e)
  }

  /** Which error sound sections end in. */
  ghost predicate PartsFail(leads: seq<Lead>, expected: Option<nat>, e: LeadError) {
    if leads == [] then e == MissingLead
    else if !Gapless(leads) then e == Gap
    else expected.Some? && expected.value != |leads| && e == CountMismatch(expected.value, |leads|)
  }

  /** The passage of a section. */
  predicate IsPassage(c: Corpus, r: Row, p: Passage) {
    r in c.records && r.start <= r.end <= |c.text| && p == Passage(r, c.text[r.start..r.end])
  }

  ghost predicate IsPart(c: Corpus, leads: seq<Lead>, n: nat, p: Passage) {
    exists l :: l in leads && NumberOf(l) == n && IsPassage(c, l.record, p)
  }

  /** Entry `i` is the passage of the section numbered `i + 1`. */
  ghost predicate InPartOrder(c: Corpus, leads: seq<Lead>, answer: seq<Passage>) {
    |answer| == |leads| && forall i :: 0 <= i < |answer| ==> IsPart(c, leads, i + 1, answer[i])
  }

  // ---- what an answer is ----

  /** The headings are one bare family name, or one family name with the numbers 1, 2, ... in this order. */
  predicate HasLayout(parts: seq<Row>, family: nat, bare: bool) {
    && family < |FAMILIES|
    && if bare then |parts| == 1 && parts[0].section == FAMILIES[family]
       else 1 <= |parts| <= MAX_RECORDS &&
            forall i :: 0 <= i < |parts| ==> parts[i].section == FAMILIES[family] + " (" + Decimal(i + 1) + ")"
  }

  function Bytes(parts: seq<Row>): int {
    if parts == [] then 0
    else Bytes(parts[..|parts| - 1]) + parts[|parts| - 1].end - parts[|parts| - 1].start
  }

  /** `parts` are sections of the node under one layout that fit the output together, and the headings of its
      other sections are no labels. */
  ghost predicate IsAnswer(c: Corpus, node: nat, parts: seq<Row>) {
    && (forall r :: r in parts ==> r in c.records && r.address.node == node)
    && (forall r :: r in c.records && r.address.node == node && r !in parts ==> Classify(r.section) == Ok(None))
    && (exists family, bare :: HasLayout(parts, family, bare))
    && Bytes(parts) <= MAX_TEXT
  }

  /** Under a layout every heading is the label of its part. */
  lemma PartAt(parts: seq<Row>, family: nat, bare: bool, i: nat)
    requires HasLayout(parts, family, bare) && i < |parts|
    ensures Classify(parts[i].section) == Ok(Some(Part(family, if bare then None else Some(i + 1))))
  {
    var part := Part(family, if bare then None else Some(i + 1));
    assert parts[i].section == LabelOf(part) by {
      if bare {
        assert FAMILIES[family] + "" == FAMILIES[family];
      } else {
        assert FAMILIES[family] + " (" + Decimal(i + 1) + ")" == FAMILIES[family] + (" (" + Decimal(i + 1) + ")");
      }
    }
    ClassifyIsExact(parts[i].section, part);
  }

  function RecordsOf(leads: seq<Lead>): (rows: seq<Row>)
    ensures |rows| == |leads|
  {
    seq(|leads|, i requires 0 <= i < |leads| => leads[i].record)
  }

  lemma {:induction false} SameBytes(leads: seq<Lead>)
    ensures Bytes(RecordsOf(leads)) == TotalBytes(leads)
  {
    if leads != [] {
      var n := |leads| - 1;
      SameBytes(leads[..n]);
      assert RecordsOf(leads)[..n] == RecordsOf(leads[..n]);
    }
  }

  lemma {:induction false} SectionsAscend(records: seq<Row>, node: nat)
    requires Ascending(records)
    ensures Ascending(Sections(records, node))
  {
    if records != [] {
      SectionsAscend(records[1..], node);
      forall r | r in Sections(records[1..], node)
        ensures Before(records[0].address, r.address)
      {
        var i :| 0 <= i < |records[1..]| && records[1..][i] == r;
        assert records[i + 1] == r;
      }
    }
  }

  lemma AscendingSnoc(rows: seq<Row>, row: Row)
    requires Ascending(rows) && forall r :: r in rows ==> Before(r.address, row.address)
    ensures Ascending(rows + [row])
  {
  }

  lemma LeadIsRow(rows: seq<Row>, r: Row)
    requires r in RecordsOf(Leads(Outcomes(rows)))
    ensures r in rows
  {
    var leads := Leads(Outcomes(rows));
    LeadsAreRecords(Outcomes(rows));
    var k :| 0 <= k < |leads| && leads[k].record == r;
    assert leads[k] in leads;
    var i :| 0 <= i < |rows| && Outcomes(rows)[i] == Outcome(r, Ok(Some(leads[k].part)));
  }

  lemma {:induction false} LeadsAscend(rows: seq<Row>)
    requires Ascending(rows)
    ensures Ascending(RecordsOf(Leads(Outcomes(rows))))
  {
    if rows != [] {
      hide *;
      var n := |rows| - 1;
      AscendingInit(rows);
      LeadsAscend(rows[..n]);
      forall r | r in RecordsOf(Leads(Outcomes(rows[..n])))
        ensures Before(r.address, rows[n].address)
      {
        LeadIsRow(rows[..n], r);
      }
      LeadsGrow(rows);
      AscendingSnoc(RecordsOf(Leads(Outcomes(rows[..n]))), rows[n]);
    } else {
      assert Leads(Outcomes(rows)) == [];
    }
  }

  lemma LeadsSnoc(rows: seq<Row>)
    requires rows != []
    ensures var n := |rows| - 1;
      Leads(Outcomes(rows)) == Leads(Outcomes(rows[..n])) + LeadOf(Outcome(rows[n], Classify(rows[n].section)))
  {
    hide Classify;
    var n := |rows| - 1;
    assert Outcomes(rows)[..n] == Outcomes(rows[..n]);
  }

  lemma LeadsGrow(rows: seq<Row>)
    requires rows != []
    ensures var n := |rows| - 1; var before := RecordsOf(Leads(Outcomes(rows[..n])));
      RecordsOf(Leads(Outcomes(rows))) in {before, before + [rows[n]]}
  {
    hide Classify, Outcomes, Leads;
    LeadsSnoc(rows);
    var n := |rows| - 1;
    var before, last := Leads(Outcomes(rows[..n])), LeadOf(Outcome(rows[n], Classify(rows[n].section)));
    if last == [] {
      assert Leads(Outcomes(rows)) == before;
    } else {
      assert RecordsOf(Leads(Outcomes(rows))) == RecordsOf(before) + [rows[n]];
    }
  }

  lemma AscendingInit(rows: seq<Row>)
    requires Ascending(rows) && rows != []
    ensures Ascending(rows[..|rows| - 1])
    ensures forall r :: r in rows[..|rows| - 1] ==> Before(r.address, rows[|rows| - 1].address)
  {
  }

  /** The leads of a node are its sections with a part's label, each once. */
  lemma LeadsOfNode(c: Corpus, node: nat)
    requires ValidCorpus(c)
    ensures Ascending(RecordsOf(LeadsOf(c, node)))
    ensures forall l :: l in LeadsOf(c, node) <==>
      l.record in c.records && l.record.address.node == node && Classify(l.record.section) == Ok(Some(l.part))
  {
    var rows := Sections(c.records, node);
    SectionsAscend(c.records, node);
    LeadsAscend(rows);
    LeadsAreRecords(Outcomes(rows));
    forall l: Lead
      ensures Outcome(l.record, Ok(Some(l.part))) in Outcomes(rows) <==>
        l.record in rows && Classify(l.record.section) == Ok(Some(l.part))
    {
      if l.record in rows {
        var i :| 0 <= i < |rows| && rows[i] == l.record;
        assert Outcomes(rows)[i] in Outcomes(rows);
      }
    }
  }

  // ---- the order does not matter to the sum ----

  predicate Distinct(rows: seq<Row>) {
    forall i, j :: 0 <= i < j < |rows| ==> rows[i] != rows[j]
  }

  lemma {:induction false} OnceEach(rows: seq<Row>, r: Row)
    requires Distinct(rows)
    ensures multiset(rows)[r] == if r in rows then 1 else 0
  {
    if rows != [] {
      var n := |rows| - 1;
      OnceEach(rows[..n], r);
      assert rows == rows[..n] + [rows[n]];
    }
  }

  lemma {:induction false} BytesAppend(a: seq<Row>, b: seq<Row>)
    ensures Bytes(a + b) == Bytes(a) + Bytes(b)
  {
    if b == [] {
      assert a + b == a;
    } else {
      var n := |b| - 1;
      BytesAppend(a, b[..n]);
      assert (a + b)[..|a| + n] == a + b[..n];
    }
  }

  lemma {:induction false} RowBetween(a: seq<Row>, r: Row, b: seq<Row>)
    ensures multiset(a + [r] + b) == multiset(a + b) + multiset{r}
    ensures Bytes(a + [r] + b) == Bytes(a + b) + r.end - r.start
  {
    assert Bytes([r]) == r.end - r.start;
    hide Bytes;
    BytesAppend(a + [r], b);
    BytesAppend(a, [r]);
    BytesAppend(a, b);
  }

  /** Taking out one row. */
  lemma WithoutRow(b: seq<Row>, r: Row) returns (rest: seq<Row>)
    requires r in b
    ensures |rest| < |b| && multiset(b) == multiset(rest) + multiset{r}
    ensures Bytes(b) == Bytes(rest) + r.end - r.start
  {
    hide Bytes;
    var k :| 0 <= k < |b| && b[k] == r;
    var front, back := b[..k], b[k + 1..];
    rest := front + back;
    assert b == front + [r] + back;
    RowBetween(front, r, back);
  }

  lemma SameRest(a: multiset<Row>, b: multiset<Row>, r: Row)
    requires a + multiset{r} == b + multiset{r}
    ensures a == b
  {
    assert (a + multiset{r}) - multiset{r} == a && (b + multiset{r}) - multiset{r} == b;
  }

  lemma {:induction false} BytesOfPermutation(a: seq<Row>, b: seq<Row>)
    requires multiset(a) == multiset(b)
    ensures |a| == |b| && Bytes(a) == Bytes(b)
    decreases |a|
  {
    assert |multiset(a)| == |a| && |multiset(b)| == |b|;
    if a != [] {
      hide *;
      var r := a[0];
      assert r in multiset(b);
      var c := WithoutRow(a, r);
      var d := WithoutRow(b, r);
      SameRest(multiset(c), multiset(d), r);
      BytesOfPermutation(c, d);
    }
  }

  lemma {:induction false} SameRows(a: seq<Row>, b: seq<Row>)
    requires Distinct(a) && Distinct(b) && forall r :: r in a <==> r in b
    ensures |a| == |b| && Bytes(a) == Bytes(b)
  {
    forall r: Row
      ensures multiset(a)[r] == multiset(b)[r]
    {
      OnceEach(a, r);
      OnceEach(b, r);
    }
    BytesOfPermutation(a, b);
  }

  lemma AscendingIsDistinct(rows: seq<Row>)
    requires Ascending(rows)
    ensures Distinct(rows)
  {
    forall i, j | 0 <= i < j < |rows|
      ensures rows[i] != rows[j]
    {
      assert Before(rows[i].address, rows[j].address);
    }
  }

  /** The passages of an answer. */
  ghost predicate Answers(c: Corpus, node: nat, passages: seq<Passage>) {
    && IsAnswer(c, node, seq(|passages|, i requires 0 <= i < |passages| => passages[i].record))
    && forall i :: 0 <= i < |passages| ==>
         var r := passages[i].record;
         r.start <= r.end <= |c.text| && passages[i].quote == c.text[r.start..r.end]
  }

  /** The lead with each number, in order. */
  lemma PartsInOrderExist(leads: seq<Lead>) returns (parts: seq<Row>)
    requires Gapless(leads)
    ensures |parts| == |leads|
    ensures forall i :: 0 <= i < |parts| ==> HasRecord(leads, i + 1, parts[i])
  {
    parts := [];
    while |parts| < |leads|
      invariant |parts| <= |leads| && forall i :: 0 <= i < |parts| ==> HasRecord(leads, i + 1, parts[i])
    {
      assert HasNumber(leads, |parts| + 1);
      var l :| l in leads && NumberOf(l) == |parts| + 1;
      parts := parts + [l.record];
    }
  }

  predicate HasRecord(leads: seq<Lead>, n: nat, r: Row) {
    exists l :: l in leads && NumberOf(l) == n && l.record == r
  }

  lemma NumberIsListed(leads: seq<Lead>, parts: seq<Row>, l: Lead)
    requires Compatible(leads) && Gapless(leads) && l in leads && |parts| == |leads|
    requires forall i :: 0 <= i < |parts| ==> HasRecord(leads, i + 1, parts[i])
    ensures 1 <= NumberOf(l) <= |parts| && parts[NumberOf(l) - 1] == l.record
  {
    assert HasNumber(leads, NumberOf(l));
    var m :| m in leads && NumberOf(m) == NumberOf(l) && m.record == parts[NumberOf(l) - 1];
    var i :| 0 <= i < |leads| && leads[i] == l;
    var j :| 0 <= j < |leads| && leads[j] == m;
    assert i == j;
  }

  /** Compatible leads put in the order of their numbers. */
  ghost predicate InOrder(c: Corpus, node: nat, parts: seq<Row>) {
    var leads := LeadsOf(c, node);
    && Sound(Outcomes(Sections(c.records, node))) && Gapless(leads) && |parts| == |leads|
    && forall i :: 0 <= i < |parts| ==> HasRecord(leads, i + 1, parts[i])
  }

  /** The lead behind a part. */
  lemma OrderedLead(c: Corpus, node: nat, parts: seq<Row>, i: nat) returns (l: Lead)
    requires ValidCorpus(c) && InOrder(c, node, parts) && i < |parts|
    ensures NumberOf(l) == i + 1 && l.record == parts[i] && parts[i] in RecordsOf(LeadsOf(c, node))
    ensures parts[i] in c.records && parts[i].address.node == node
    ensures Classify(parts[i].section) == Ok(Some(l.part)) && LayoutOf(l) == LayoutOf(LeadsOf(c, node)[0])
  {
    hide Classify, Ascending, Gapless;
    var leads := LeadsOf(c, node);
    LeadsOfNode(c, node);
    assert HasRecord(leads, i + 1, parts[i]);
    l :| l in leads && NumberOf(l) == i + 1 && l.record == parts[i];
    var k :| 0 <= k < |leads| && leads[k] == l;
    assert RecordsOf(leads)[k] == parts[i];
    assert LayoutOf(leads[0]) == LayoutOf(leads[k]);
  }

  lemma OrderedAreLeads(c: Corpus, node: nat, parts: seq<Row>)
    requires ValidCorpus(c) && InOrder(c, node, parts)
    ensures Distinct(parts) && forall r :: r in parts <==> r in RecordsOf(LeadsOf(c, node))
  {
    hide Classify, Gapless, Compatible;
    var leads := LeadsOf(c, node);
    forall i, j | 0 <= i < j < |parts|
      ensures parts[i] != parts[j]
    {
      var l := OrderedLead(c, node, parts, i);
      var m := OrderedLead(c, node, parts, j);
    }
    forall i | 0 <= i < |parts|
      ensures parts[i] in RecordsOf(leads)
    {
      var l := OrderedLead(c, node, parts, i);
    }
    forall r | r in RecordsOf(leads)
      ensures r in parts
    {
      var k :| 0 <= k < |leads| && RecordsOf(leads)[k] == r;
      NumberIsListed(leads, parts, leads[k]);
    }
  }

  /** One heading under a layout. */
  predicate Labelled(parts: seq<Row>, family: nat, bare: bool, i: nat) {
    && family < |FAMILIES| && i < |parts|
    && if bare then i == 0 && parts[i].section == FAMILIES[family]
       else i < MAX_RECORDS && parts[i].section == FAMILIES[family] + " (" + Decimal(i + 1) + ")"
  }

  lemma OrderedLabel(c: Corpus, node: nat, parts: seq<Row>, i: nat, first: Lead)
    requires ValidCorpus(c) && InOrder(c, node, parts) && i < |parts| && first == LeadsOf(c, node)[0]
    ensures Labelled(parts, first.part.family, first.part.number.None?, i)
  {
    hide *;
    var l := OrderedLead(c, node, parts, i);
    ClassifyIsExact(parts[i].section, l.part);
    LabelReads(l.part);
    LeadIsLabelled(parts, i, l, first);
  }

  lemma LeadIsLabelled(parts: seq<Row>, i: nat, l: Lead, first: Lead)
    requires i < |parts| && NumberOf(l) == i + 1 && LayoutOf(l) == LayoutOf(first) && ValidPart(l.part)
    requires l.part.number.None? ==> parts[i].section == FAMILIES[l.part.family]
    requires l.part.number.Some? ==>
      parts[i].section == FAMILIES[l.part.family] + " (" + Decimal(l.part.number.value) + ")"
    ensures Labelled(parts, first.part.family, first.part.number.None?, i)
  {
  }

  lemma OrderedHasLayout(c: Corpus, node: nat, parts: seq<Row>)
    requires ValidCorpus(c) && InOrder(c, node, parts)
    ensures exists family, bare :: HasLayout(parts, family, bare)
  {
    assert parts != [];
    var first := LeadsOf(c, node)[0];
    var family, bare := first.part.family, first.part.number.None?;
    hide *;
    forall i: nat | i < |parts|
      ensures Labelled(parts, family, bare, i)
    {
      OrderedLabel(c, node, parts, i, first);
    }
    LabelledIsLayout(parts, family, bare);
  }

  lemma LabelReads(p: Part)
    requires ValidPart(p)
    ensures p.number.None? ==> LabelOf(p) == FAMILIES[p.family]
    ensures p.number.Some? ==> LabelOf(p) == FAMILIES[p.family] + " (" + Decimal(p.number.value) + ")"
  {
    if p.number.None? {
      assert FAMILIES[p.family] + "" == FAMILIES[p.family];
    } else {
      var n := Decimal(p.number.value);
      assert FAMILIES[p.family] + (" (" + n + ")") == FAMILIES[p.family] + " (" + n + ")";
    }
  }

  lemma LabelledIsLayout(parts: seq<Row>, family: nat, bare: bool)
    requires parts != [] && forall i: nat :: i < |parts| ==> Labelled(parts, family, bare, i)
    ensures HasLayout(parts, family, bare)
  {
    assert Labelled(parts, family, bare, 0) && Labelled(parts, family, bare, |parts| - 1);
    forall i | 0 <= i < |parts|
      ensures !bare ==> parts[i].section == FAMILIES[family] + " (" + Decimal(i + 1) + ")"
    {
      assert Labelled(parts, family, bare, i);
    }
  }

  lemma OrderedIsAnswer(c: Corpus, node: nat, parts: seq<Row>)
    requires ValidCorpus(c) && InOrder(c, node, parts)
    ensures IsAnswer(c, node, parts)
  {
    hide Classify, HasLayout, Compatible, Gapless, HasRecord, Ascending, NoRefusal;
    var leads := LeadsOf(c, node);
    LeadsOfNode(c, node);
    OrderedAreLeads(c, node, parts);
    OrderedHasLayout(c, node, parts);
    OrderedFits(c, node, parts);
    forall r | r in parts
      ensures r in c.records && r.address.node == node
    {
      var i :| 0 <= i < |parts| && parts[i] == r;
      var l := OrderedLead(c, node, parts, i);
    }
    forall r | r in c.records && r.address.node == node && r !in parts
      ensures Classify(r.section) == Ok(None)
    {
      OtherHeading(c, node, r);
    }
  }

  lemma {:induction false} OrderedFits(c: Corpus, node: nat, parts: seq<Row>)
    requires ValidCorpus(c) && InOrder(c, node, parts)
    ensures Bytes(parts) <= MAX_TEXT
  {
    hide Classify, Gapless, Compatible, Bytes, TotalBytes;
    var leads := LeadsOf(c, node);
    LeadsOfNode(c, node);
    OrderedAreLeads(c, node, parts);
    AscendingIsDistinct(RecordsOf(leads));
    SameRows(parts, RecordsOf(leads));
    SameBytes(leads);
  }

  /** Once no heading is refused, a section is a lead or its heading is no label. */
  lemma {:induction false} OtherHeading(c: Corpus, node: nat, r: Row)
    requires ValidCorpus(c) && NoRefusal(Outcomes(Sections(c.records, node)))
    requires r in c.records && r.address.node == node
    ensures Classify(r.section) == Ok(None) || r in RecordsOf(LeadsOf(c, node))
  {
    hide Classify;
    var rows, leads := Sections(c.records, node), LeadsOf(c, node);
    var i :| 0 <= i < |rows| && rows[i] == r;
    assert Outcomes(rows)[i] in Outcomes(rows);
    LeadsOfNode(c, node);
    if Classify(r.section) != Ok(None) {
      var k :| 0 <= k < |leads| && leads[k] == Lead(r, Classify(r.section).value.value);
      assert RecordsOf(leads)[k] == r;
    }
  }

  /** Conversely, the sections behind an answer are complete. */
  lemma AnswerIsComplete(c: Corpus, node: nat, parts: seq<Row>, expected: Option<nat>)
    requires ValidCorpus(c) && IsAnswer(c, node, parts) && (expected.Some? ==> expected.value == |parts|)
    ensures Complete(c, node, expected)
  {
    hide Classify;
    var family, bare :| HasLayout(parts, family, bare);
    var leads := LeadsOf(c, node);
    LeadsOfNode(c, node);
    AnswerIsLeads(c, node, parts, family, bare);
    AscendingIsDistinct(RecordsOf(leads));
    SameRows(parts, RecordsOf(leads));
    SameBytes(leads);
    AnswerIsCompatible(c, node, parts, family, bare);
    AnswerIsGapless(c, node, parts, family, bare);
    NothingRefused(c, node, parts, family, bare);
  }

  /** The lead of a part of an answer. */
  lemma LeadAt(c: Corpus, node: nat, parts: seq<Row>, family: nat, bare: bool, i: nat) returns (l: Lead)
    requires ValidCorpus(c) && IsAnswer(c, node, parts) && HasLayout(parts, family, bare) && i < |parts|
    ensures l in LeadsOf(c, node) && l.record == parts[i] && NumberOf(l) == i + 1
    ensures LayoutOf(l) == (family, !bare)
  {
    PartAt(parts, family, bare, i);
    hide Classify;
    LeadsOfNode(c, node);
    l := Lead(parts[i], Part(family, if bare then None else Some(i + 1)));
    assert parts[i] in parts;
  }

  /** The part of an answer that a lead is. */
  lemma LeadIsPart(c: Corpus, node: nat, parts: seq<Row>, family: nat, bare: bool, l: Lead) returns (i: nat)
    requires ValidCorpus(c) && IsAnswer(c, node, parts) && HasLayout(parts, family, bare) && l in LeadsOf(c, node)
    ensures i < |parts| && parts[i] == l.record && NumberOf(l) == i + 1 && LayoutOf(l) == (family, !bare)
  {
    LeadsOfNode(c, node);
    assert l.record in parts;
    i :| 0 <= i < |parts| && parts[i] == l.record;
    PartAt(parts, family, bare, i);
  }

  lemma AnswerIsLeads(c: Corpus, node: nat, parts: seq<Row>, family: nat, bare: bool)
    requires ValidCorpus(c) && IsAnswer(c, node, parts) && HasLayout(parts, family, bare)
    ensures Distinct(parts) && forall r :: r in parts <==> r in RecordsOf(LeadsOf(c, node))
  {
    var leads := LeadsOf(c, node);
    forall i, j | 0 <= i < j < |parts|
      ensures parts[i] != parts[j]
    {
      PartAt(parts, family, bare, i);
      PartAt(parts, family, bare, j);
    }
    forall i | 0 <= i < |parts|
      ensures parts[i] in RecordsOf(leads)
    {
      var l := LeadAt(c, node, parts, family, bare, i);
      var k :| 0 <= k < |leads| && leads[k] == l;
      assert RecordsOf(leads)[k] == parts[i];
    }
    forall r | r in RecordsOf(leads)
      ensures r in parts
    {
      var k :| 0 <= k < |leads| && RecordsOf(leads)[k] == r;
      var i := LeadIsPart(c, node, parts, family, bare, leads[k]);
    }
  }

  lemma AnswerIsCompatible(c: Corpus, node: nat, parts: seq<Row>, family: nat, bare: bool)
    requires ValidCorpus(c) && IsAnswer(c, node, parts) && HasLayout(parts, family, bare)
    ensures Compatible(LeadsOf(c, node))
  {
    var leads := LeadsOf(c, node);
    LeadsOfNode(c, node);
    AscendingIsDistinct(RecordsOf(leads));
    forall i, j | 0 <= i < j < |leads|
      ensures LayoutOf(leads[i]) == LayoutOf(leads[j]) && NumberOf(leads[i]) != NumberOf(leads[j])
    {
      var a := LeadIsPart(c, node, parts, family, bare, leads[i]);
      var b := LeadIsPart(c, node, parts, family, bare, leads[j]);
      assert RecordsOf(leads)[i] != RecordsOf(leads)[j];
    }
  }

  lemma AnswerIsGapless(c: Corpus, node: nat, parts: seq<Row>, family: nat, bare: bool)
    requires ValidCorpus(c) && IsAnswer(c, node, parts) && HasLayout(parts, family, bare)
    requires |parts| == |LeadsOf(c, node)|
    ensures Gapless(LeadsOf(c, node))
  {
    var leads := LeadsOf(c, node);
    forall n: nat
      ensures HasNumber(leads, n) <==> 1 <= n <= |leads|
    {
      if 1 <= n <= |leads| {
        var l := LeadAt(c, node, parts, family, bare, n - 1);
      }
      if HasNumber(leads, n) {
        var l :| l in leads && NumberOf(l) == n;
        var i := LeadIsPart(c, node, parts, family, bare, l);
      }
    }
  }

  lemma {:induction false} NothingRefused(c: Corpus, node: nat, parts: seq<Row>, family: nat, bare: bool)
    requires ValidCorpus(c) && IsAnswer(c, node, parts) && HasLayout(parts, family, bare)
    ensures NoRefusal(Outcomes(Sections(c.records, node)))
  {
    var rows := Sections(c.records, node);
    forall k | 0 <= k < |rows|
      ensures Outcomes(rows)[k].kind.Ok?
    {
      assert rows[k] in rows;
      if rows[k] in parts {
        var i :| 0 <= i < |parts| && parts[i] == rows[k];
        PartAt(parts, family, bare, i);
      }
    }
  }

  lemma CompleteIsAnswerable(c: Corpus, node: nat, expected: Option<nat>)
    requires ValidCorpus(c)
    ensures Complete(c, node, expected) <==>
      exists parts :: IsAnswer(c, node, parts) && (expected.Some? ==> |parts| == expected.value)
  {
    hide IsAnswer, Sound;
    if Complete(c, node, expected) {
      var parts := PartsInOrderExist(LeadsOf(c, node));
      OrderedIsAnswer(c, node, parts);
    }
    forall parts | IsAnswer(c, node, parts) && (expected.Some? ==> |parts| == expected.value)
      ensures Complete(c, node, expected)
    {
      AnswerIsComplete(c, node, parts, expected);
    }
  }

  /** The records of an answer in part order. */
  lemma PassagesAnswer(c: Corpus, node: nat, passages: seq<Passage>)
    requires ValidCorpus(c) && Complete(c, node, None) && InPartOrder(c, LeadsOf(c, node), passages)
    ensures Answers(c, node, passages)
  {
    hide IsAnswer, Sound, Gapless;
    var parts := seq(|passages|, i requires 0 <= i < |passages| => passages[i].record);
    forall i | 0 <= i < |parts|
      ensures HasRecord(LeadsOf(c, node), i + 1, parts[i])
    {
      assert IsPart(c, LeadsOf(c, node), i + 1, passages[i]);
    }
    OrderedIsAnswer(c, node, parts);
    forall i | 0 <= i < |passages|
      ensures var r := passages[i].record;
        r.start <= r.end <= |c.text| && passages[i].quote == c.text[r.start..r.end]
    {
      assert IsPart(c, LeadsOf(c, node), i + 1, passages[i]);
    }
  }

  // ---- why a node is refused ----

  /** The bytes of the sections with a part's label. */
  function LabelledBytes(rows: seq<Row>): int {
    if rows == [] then 0
    else
      var row := rows[|rows| - 1];
      LabelledBytes(rows[..|rows| - 1]) +
      match Classify(row.section) case Ok(Some(_)) => row.end - row.start case _ => 0
  }

  /** A section labelled under another family, or bare where `p` is numbered or the reverse. */
  predicate Clashes(row: Row, p: Part) {
    match Classify(row.section)
    case Ok(Some(q)) => q.family != p.family || q.number.Some? != p.number.Some?
    case _ => false
  }

  lemma {:induction false} BytesGrow(leads: seq<Lead>, row: Row)
    ensures TotalBytes(leads + LeadOf(Outcome(row, Classify(row.section)))) == TotalBytes(leads) +
      match Classify(row.section) case Ok(Some(_)) => row.end - row.start case _ => 0
  {
    hide Classify, TotalBytes;
    match Classify(row.section)
    case Ok(Some(p)) => BytesSnoc(leads, Lead(row, p));
    case _ => assert leads + [] == leads;
  }

  lemma {:induction false} LabelledBytesAreTotal(rows: seq<Row>)
    ensures LabelledBytes(rows) == TotalBytes(Leads(Outcomes(rows)))
  {
    if rows == [] {
      assert Leads(Outcomes(rows)) == [];
    } else {
      hide Classify, Leads, TotalBytes, LeadOf, Outcomes;
      LabelledBytesAreTotal(rows[..|rows| - 1]);
      LeadsSnoc(rows);
      BytesGrow(Leads(Outcomes(rows[..|rows| - 1])), rows[|rows| - 1]);
    }
  }

  lemma ClashIsLayout(rows: seq<Row>, l: Lead)
    ensures (exists k :: k in Leads(Outcomes(rows)) && LayoutOf(k) != LayoutOf(l)) <==>
      exists j :: 0 <= j < |rows| && Clashes(rows[j], l.part)
  {
    hide Classify;
    var leads := Leads(Outcomes(rows));
    LeadsAreRecords(Outcomes(rows));
    forall k | k in leads && LayoutOf(k) != LayoutOf(l)
      ensures exists j :: 0 <= j < |rows| && Clashes(rows[j], l.part)
    {
      var j :| 0 <= j < |rows| && Outcomes(rows)[j] == Outcome(k.record, Ok(Some(k.part)));
      assert Clashes(rows[j], l.part);
    }
    forall j | 0 <= j < |rows| && Clashes(rows[j], l.part)
      ensures exists k :: k in leads && LayoutOf(k) != LayoutOf(l)
    {
      var k := Lead(rows[j], Classify(rows[j].section).value.value);
      assert Outcomes(rows)[j] == Outcome(k.record, Ok(Some(k.part)));
      assert k in leads && LayoutOf(k) != LayoutOf(l);
    }
  }

  lemma SameNumberSameHeading(rows: seq<Row>, l: Lead)
    requires Classify(l.record.section) == Ok(Some(l.part)) && HasNumber(Leads(Outcomes(rows)), NumberOf(l))
    requires forall k :: k in Leads(Outcomes(rows)) ==> LayoutOf(k) == LayoutOf(l)
    ensures exists j :: 0 <= j < |rows| && rows[j].section == l.record.section
  {
    var leads := Leads(Outcomes(rows));
    LeadsAreRecords(Outcomes(rows));
    var k :| k in leads && NumberOf(k) == NumberOf(l);
    assert k.part == l.part;
    var j :| 0 <= j < |rows| && Outcomes(rows)[j] == Outcome(k.record, Ok(Some(k.part)));
    ClassifyIsExact(k.record.section, k.part);
    ClassifyIsExact(l.record.section, l.part);
  }

  /** The section at which reading stops is refused, clashes with an earlier label, does not fit, or repeats
      an earlier heading: the first of these that applies is the error. */
  lemma StopReason(rows: seq<Row>, i: nat, e: LeadError)
    requires StopsAt(Outcomes(rows), i, e) && AllSpanned(Outcomes(rows))
    ensures match Classify(rows[i].section)
      case Err(_) => e == InvalidNumbering
      case Ok(None) => false
      case Ok(Some(p)) =>
        if exists j :: 0 <= j < i && Clashes(rows[j], p) then e == MixedLayout
        else if LabelledBytes(rows[..i + 1]) > MAX_TEXT then e == OutputLimit
        else e == DuplicatePart && exists j :: 0 <= j < i && rows[j].section == rows[i].section
  {
    hide Classify, Joins, LeadFault, Leads, Compatible, TotalBytes, LabelledBytes, Clashes;
    var before, o := rows[..i], Outcomes(rows)[i];
    assert Outcomes(rows)[..i] == Outcomes(before);
    SoundSnoc(Outcomes(before), o);
    match Classify(rows[i].section)
    case Err(_) => RefusedNumber(rows[i].section);
    case Ok(None) =>
    case Ok(Some(p)) =>
      LeadStop(before, rows[i], p, e);
      assert rows[..i + 1] == before + [rows[i]];
      assert forall j :: 0 <= j < i ==> before[j] == rows[j];
  }

  lemma {:induction false} LeadStop(before: seq<Row>, row: Row, p: Part, e: LeadError)
    requires Classify(row.section) == Ok(Some(p)) && e == LeadFault(Leads(Outcomes(before)), Lead(row, p))
    requires Joins(Leads(Outcomes(before)), Lead(row, p)) ==>
      TotalBytes(Leads(Outcomes(before))) + Length(row) > MAX_TEXT
    ensures
      if exists j :: 0 <= j < |before| && Clashes(before[j], p) then e == MixedLayout
      else if LabelledBytes(before + [row]) > MAX_TEXT then e == OutputLimit
      else e == DuplicatePart && exists j :: 0 <= j < |before| && before[j].section == row.section
  {
    hide Classify, HasNumber, Clashes, Leads, Outcomes, TotalBytes, LayoutOf;
    var leads, l := Leads(Outcomes(before)), Lead(row, p);
    ClashIsLayout(before, l);
    LabelledBytesAreTotal(before);
    LabelledBytesSnoc(before, row, p);
    if exists k :: k in leads && LayoutOf(k) != LayoutOf(l) {
    } else if HasNumber(leads, NumberOf(l)) {
      SameNumberSameHeading(before, l);
    }
  }

  lemma {:induction false} LabelledBytesSnoc(before: seq<Row>, row: Row, p: Part)
    requires Classify(row.section) == Ok(Some(p))
    ensures LabelledBytes(before + [row]) == LabelledBytes(before) + Length(row)
  {
    hide Classify;
    assert (before + [row])[..|before|] == before;
  }

  lemma RefusedNumber(heading: string)
    requires Classify(heading).Err?
    ensures Classify(heading).error == InvalidNumbering
  {
    RefusalIsExact(heading);
  }

  lemma {:induction false} NumbersOf(leads: seq<Lead>) returns (numbers: set<nat>)
    requires Compatible(leads)
    ensures |numbers| == |leads| && forall n: nat :: n in numbers <==> HasNumber(leads, n)
  {
    if leads == [] {
      numbers := {};
    } else {
      var n := |leads| - 1;
      var before := NumbersOf(leads[..n]);
      assert leads == leads[..n] + [leads[n]];
      CompatibleSnoc(leads[..n], leads[n]);
      numbers := before + {NumberOf(leads[n])};
      forall k: nat
        ensures HasNumber(leads, k) <==> HasNumber(leads[..n], k) || k == NumberOf(leads[n])
      {
        NumberSnoc(leads[..n], leads[n], k);
      }
    }
  }

  lemma NumberSnoc(leads: seq<Lead>, l: Lead, k: nat)
    ensures HasNumber(leads + [l], k) <==> HasNumber(leads, k) || k == NumberOf(l)
  {
    assert l in leads + [l];
    assert forall m :: m in leads ==> m in leads + [l];
  }

  /** Numbers that repeat nothing and leave no gap are all there. */
  lemma GapIsMissing(leads: seq<Lead>)
    requires Compatible(leads) && leads != [] && !Gapless(leads)
    ensures exists k :: 1 <= k <= |leads| && !HasNumber(leads, k)
  {
    if forall k :: 1 <= k <= |leads| ==> HasNumber(leads, k) {
      var numbers := NumbersOf(leads);
      SubsetCard(UpTo(|leads|), numbers);
    }
  }

  /** No section of the node has the number `k`. */
  predicate Lacks(rows: seq<Row>, k: nat) {
    forall r :: r in rows ==>
      match Classify(r.section)
      case Ok(Some(p)) => k != (if p.number.Some? then p.number.value else 1)
      case _ => true
  }

  /** Sections that can all be read fail when no heading is a label, when a number up to their count is
      missing, or when the answer has another length than expected. */
  lemma {:induction false} PartsReason(c: Corpus, node: nat, expected: Option<nat>, e: LeadError)
    requires ValidCorpus(c) && Sound(Outcomes(Sections(c.records, node))) && PartsFail(LeadsOf(c, node), expected, e)
    ensures match e
      case MissingLead => forall r :: r in c.records && r.address.node == node ==> Classify(r.section) == Ok(None)
      case Gap => exists k :: 1 <= k <= |LeadsOf(c, node)| && Lacks(Sections(c.records, node), k)
      case CountMismatch(wanted, actual) =>
        expected == Some(wanted) && wanted != actual && exists parts :: IsAnswer(c, node, parts) && |parts| == actual
      case _ => false
  {
    var leads := LeadsOf(c, node);
    hide Classify, IsAnswer;
    if leads == [] {
      forall r | r in c.records && r.address.node == node
        ensures Classify(r.section) == Ok(None)
      {
        OtherHeading(c, node, r);
      }
    } else if !Gapless(leads) {
      GapIsMissing(leads);
      var k :| 1 <= k <= |leads| && !HasNumber(leads, k);
      MissingIsLacking(c, node, k);
    } else {
      CompleteIsAnswerable(c, node, Some(|leads|));
    }
  }

  lemma {:induction false} MissingIsLacking(c: Corpus, node: nat, k: nat)
    requires ValidCorpus(c) && !HasNumber(LeadsOf(c, node), k)
    ensures Lacks(Sections(c.records, node), k)
  {
    hide Classify;
    LeadsOfNode(c, node);
    forall r | r in Sections(c.records, node) && Classify(r.section).Ok? && Classify(r.section).value.Some?
      ensures NumberOf(Lead(r, Classify(r.section).value.value)) != k
    {
      assert Lead(r, Classify(r.section).value.value) in LeadsOf(c, node);
    }
  }

  /** `lead_parts` answers exactly the answerable requests, in part order. */
  method LeadParts(c: Corpus, title: string, expected: Option<nat>, normalize: string -> string)
    returns (r: Result<seq<Passage>, LeadError>)
    requires ValidCorpus(c)
    ensures r.Ok? <==>
      && (expected.Some? ==> 1 <= expected.value <= MAX_RECORDS)
      && |FindTitle(c, title, normalize)| == 1
      && exists parts :: IsAnswer(c, FindTitle(c, title, normalize)[0], parts) &&
           (expected.Some? ==> |parts| == expected.value)
    ensures r.Ok? ==> Answers(c, FindTitle(c, title, normalize)[0], r.value)
    ensures
      if expected.Some? && (expected.value < 1 || expected.value > 50_000) then r == Err(InvalidExpectedCount)
      else if FindTitle(c, title, normalize) == [] then r == Err(MissingTitle)
      else if |FindTitle(c, title, normalize)| > 1 then r == Err(AmbiguousTitle)
      else r.Ok? || NodeFails(c, FindTitle(c, title, normalize)[0], expected, r.error)
  {
    if expected.Some? && (expected.value == 0 || expected.value > MAX_RECORDS) {
      return Err(InvalidExpectedCount);
    }
    var found := FindTitle(c, title, normalize);
    if |found| == 0 {
      return Err(MissingTitle);
    }
    if |found| > 1 {
      return Err(AmbiguousTitle);
    }
    CompleteIsAnswerable(c, found[0], expected);
    r := NodeParts(c, found[0], expected);
    if r.Ok? {
      PassagesAnswer(c, found[0], r.value);
    }
  }

  method NodeParts(c: Corpus, node: nat, expected: Option<nat>) returns (r: Result<seq<Passage>, LeadError>)
    requires ValidCorpus(c)
    ensures r.Ok? <==> Complete(c, node, expected)
    ensures r.Ok? ==> InPartOrder(c, LeadsOf(c, node), r.value)
    ensures r.Err? ==> NodeFails(c, node, expected, r.error)
  {
    var rows := Sections(c.records, node);
    assert forall x :: x in rows ==> x in c.records && Fits(x, c.text);
    var gathered := GatherAll(rows);
    if gathered.Err? {
      return Err(gathered.error);
    }
    LeadsAreListed(c, node);
    r := PartsInOrder(c, LeadsOf(c, node), gathered.value.parts, expected);
    if r.Ok? {
      assert Complete(c, node, expected);
    }
  }

  /** The final checks on the numbers, and the answer. */
  method PartsInOrder(c: Corpus, ghost leads: seq<Lead>, parts: map<nat, Address>, expected: Option<nat>)
    returns (r: Result<seq<Passage>, LeadError>)
    requires ValidCorpus(c) && IsParts(parts, leads) && forall l :: l in leads ==> l.record in c.records
    ensures r.Ok? <==> Gapless(leads) && (expected.Some? ==> expected.value == |leads|)
    ensures r.Ok? ==> InPartOrder(c, leads, r.value)
    ensures r.Err? ==> PartsFail(leads, expected, r.error)
  {
    NumbersAreKeys(parts, leads);
    if |parts| == 0 {
      return Err(MissingLead);
    }
    if parts.Keys != UpTo(|parts|) {
      return Err(Gap);
    }
    if expected.Some? && expected.value != |parts| {
      return Err(CountMismatch(expected.value, |parts|));
    }
    var answer := Quotes(c, leads, parts);
    return Ok(answer);
  }

  function UpTo(n: nat): (s: set<nat>)
    ensures |s| == n && forall k :: k in s <==> 1 <= k <= n
  {
    if n == 0 then {} else UpTo(n - 1) + {n}
  }

  lemma {:induction false} NumbersAreKeys(parts: map<nat, Address>, leads: seq<Lead>)
    requires IsParts(parts, leads)
    ensures |parts| > 0 ==> (parts.Keys == UpTo(|parts|) <==> Gapless(leads))
  {
    assert forall n: nat :: n in parts <==> HasNumber(leads, n);
    if forall n: nat :: HasNumber(leads, n) <==> 1 <= n <= |leads| {
      assert forall n: nat :: n in parts.Keys <==> n in UpTo(|parts|);
    }
  }

  lemma {:induction false} LeadsAreRecords(outcomes: seq<Outcome>)
    ensures forall l :: l in Leads(outcomes) <==> Outcome(l.record, Ok(Some(l.part))) in outcomes
  {
    if outcomes != [] {
      LeadsAreRecords(outcomes[..|outcomes| - 1]);
      assert outcomes == outcomes[..|outcomes| - 1] + [outcomes[|outcomes| - 1]];
    }
  }

  lemma LeadsAreListed(c: Corpus, node: nat)
    ensures forall l :: l in LeadsOf(c, node) ==> l.record in c.records
  {
    var rows := Sections(c.records, node);
    LeadsAreRecords(Outcomes(rows));
    forall l | l in LeadsOf(c, node)
      ensures l.record in c.records
    {
      var i :| 0 <= i < |rows| && Outcomes(rows)[i] == Outcome(l.record, Ok(Some(l.part)));
      assert rows[i] in rows;
    }
  }

  /** The passages of consecutive parts, read in order of their numbers. No lookup can miss, so
      the arm that passes on an error of `quote` never arises. */
  method Quotes(c: Corpus, ghost leads: seq<Lead>, parts: map<nat, Address>) returns (answer: seq<Passage>)
    requires ValidCorpus(c) && IsParts(parts, leads) && forall l :: l in leads ==> l.record in c.records
    requires parts.Keys == UpTo(|parts|)
    ensures InPartOrder(c, leads, answer)
  {
    answer := [];
    for i := 0 to |parts|
      invariant |answer| == i
      invariant forall k :: 0 <= k < i ==> IsPart(c, leads, k + 1, answer[k])
    {
      assert i + 1 in parts.Keys;
      QuoteFinds(c, leads, parts, i + 1);
      answer := answer + [Quote(c, parts[i + 1]).value];
    }
  }

  lemma QuoteFinds(c: Corpus, leads: seq<Lead>, parts: map<nat, Address>, n: nat)
    requires ValidCorpus(c) && IsParts(parts, leads) && forall l :: l in leads ==> l.record in c.records
    requires n in parts
    ensures Quote(c, parts[n]).Ok? && IsPart(c, leads, n, Quote(c, parts[n]).value)
  {
    var l :| l in leads && NumberOf(l) == n;
    LookupFinds(c.records, l.record.address);
    assert Fits(l.record, c.text);
    assert IsPassage(c, l.record, Quote(c, parts[n]).value);
  }
}
