/** Page cursors (src/api/cursor.rs) and the list request that hands them out and takes
    them back (src/api/read_resources.rs). Digest, base64 and the payload's JSON are
    parameters. */
module Cursors {
  import opened Wrappers
  import opened Text
  import opened Json
  import opened CanonicalJson
  import opened Paging

  const CURSOR_VERSION := 1
  const DEFAULT_PAGE_SIZE := 50
  const MIN_I64 := -0x8000_0000_0000_0000
  const MAX_I64 := 0x7fff_ffff_ffff_ffff

  datatype Kind = Observations | Sessions | Workstreams | Events | Tasks

  function KindName(k: Kind): string {
    match k
    case Observations => "observations"
    case Sessions => "sessions"
    case Workstreams => "workstreams"
    case Events => "events"
    case Tasks => "tasks"
  }

  lemma KindNameInjective(a: Kind, b: Kind)
    ensures KindName(a) == KindName(b) <==> a == b
  {
    assert forall k :: |KindName(k)| == match k
      case Observations => 12
      case Sessions => 8
      case Workstreams => 11
      case Events => 6
      case Tasks => 5;
  }

  datatype Payload = Payload(version: int, kind: string, fingerprint: string, resumeBefore: int)

  /** How a payload is put into a cursor text and read back from any text. */
  datatype Codec = Codec(write: Payload -> string, read: string -> Option<Payload>)

  ghost predicate ReadsBack(codec: Codec) {
    forall p :: codec.write(p) != "" && codec.read(codec.write(p)) == Some(p)
  }

  predicate ValidFingerprint(f: string) {
    |f| == 64 && forall i :: 0 <= i < |f| ==> '0' <= f[i] <= '9' || 'a' <= f[i] <= 'f'
  }

  function EncodeCursor(kind: Kind, fingerprint: string, resumeBefore: int, codec: Codec): Result<string> {
    if resumeBefore <= 0 || !ValidFingerprint(fingerprint) then Err
    else Ok(codec.write(Payload(CURSOR_VERSION, KindName(kind), fingerprint, resumeBefore)))
  }

  function DecodeCursor(text: string, kind: Kind, fingerprint: string, codec: Codec): Result<int> {
    if text == "" || !ValidFingerprint(fingerprint) then Err
    else
      match codec.read(text)
      case None => Err
      case Some(p) =>
        if p.version != CURSOR_VERSION || p.kind != KindName(kind) || p.fingerprint != fingerprint
          || p.resumeBefore <= 0 then Err
        else Ok(p.resumeBefore)
  }

  /** Taken are exactly the texts that read as this version's payload for the kind and the
      fingerprint, with a positive id. */
  lemma DecodesExactly(text: string, kind: Kind, fingerprint: string, codec: Codec, id: int)
    ensures DecodeCursor(text, kind, fingerprint, codec) == Ok(id) <==>
      && text != "" && codec.read(text) == Some(Payload(1, KindName(kind), fingerprint, id)) && id >= 1
      && |fingerprint| == 64 && forall i :: 0 <= i < 64 ==> fingerprint[i] in "0123456789abcdef"
  {
    hide KindName;
    forall i | 0 <= i < |fingerprint|
      ensures fingerprint[i] in "0123456789abcdef" <==> '0' <= fingerprint[i] <= '9' || 'a' <= fingerprint[i] <= 'f'
    {
      HexMeans(fingerprint[i]);
    }
  }

  // ---------------------------------------------------------------- what a cursor is bound to

  datatype Filters = Filters(pageSize: nat, project: Option<string>, status: Option<string>)

  function OptionalText(o: Option<string>): Json { if o.Some? then Str(o.value) else Null }

  function FilterValue(f: Filters): Json {
    Object(map["page_size" := Number(Decimal(f.pageSize)), "project" := OptionalText(f.project),
      "status" := OptionalText(f.status)])
  }

  type Digest = string -> string

  /** The digest yields 64 lower-case hex digits. */
  ghost predicate IsDigest(hash: Digest) { forall a :: ValidFingerprint(hash(a)) }

  ghost function FilterText(f: Filters): string { Canonical(FilterValue(f)) }

  ghost function Fingerprint(f: Filters, hash: Digest): string { hash(FilterText(f)) }

  /** Different filters have different texts. */
  lemma FilterTextBinds(f: Filters, g: Filters)
    ensures FilterText(f) == FilterText(g) <==> f == g
  {
    hide Canonical, Decimal;
    if FilterText(f) == FilterText(g) {
      assert IsNumberText(Decimal(f.pageSize)) && IsNumberText(Decimal(g.pageSize));
      CanonicalInjective(FilterValue(f), FilterValue(g));
      var v, w := FilterValue(f).fields, FilterValue(g).fields;
      assert v["page_size"] == w["page_size"] && v["project"] == w["project"] && v["status"] == w["status"];
      DecimalInjective(f.pageSize, g.pageSize);
    }
  }

  /** The digest takes the different texts of two filters to one value. */
  ghost predicate Collide(f: Filters, g: Filters, hash: Digest) {
    FilterText(f) != FilterText(g) && hash(FilterText(f)) == hash(FilterText(g))
  }

  /** Fingerprints agree exactly for equal filters, but for a collision of the digest. */
  lemma FingerprintBinds(f: Filters, g: Filters, hash: Digest)
    ensures Fingerprint(f, hash) == Fingerprint(g, hash) <==> f == g || Collide(f, g, hash)
  {
    hide FilterText;
    FilterTextBinds(f, g);
  }

  /** The second request may take the first one's cursor for its own. */
  ghost predicate SameList(k1: Kind, f1: Filters, k2: Kind, f2: Filters, hash: Digest) {
    k1 == k2 && (f1 == f2 || Collide(f1, f2, hash))
  }

  /** A cursor handed out for one kind and one set of filters is good for those alone, but
      for a collision of the digest, and there it leads back to where it was made. */
  lemma CursorBindsRequest(k1: Kind, f1: Filters, id: int, k2: Kind, f2: Filters, codec: Codec, hash: Digest)
    requires ReadsBack(codec) && IsDigest(hash)
    ensures var made := EncodeCursor(k1, Fingerprint(f1, hash), id, codec);
      && (made.Ok? <==> id > 0)
      && (made.Ok? ==>
        DecodeCursor(made.value, k2, Fingerprint(f2, hash), codec)
        == if SameList(k1, f1, k2, f2, hash) then Ok(id) else Err)
  {
    hide Fingerprint, KindName, ValidFingerprint, Collide;
    FingerprintIsValid(f1, hash);
    FingerprintIsValid(f2, hash);
    KindNameInjective(k1, k2);
    FingerprintBinds(f1, f2, hash);
    var p := Payload(CURSOR_VERSION, KindName(k1), Fingerprint(f1, hash), id);
    assert codec.read(codec.write(p)) == Some(p);
  }

  lemma FingerprintIsValid(f: Filters, hash: Digest)
    requires IsDigest(hash)
    ensures ValidFingerprint(Fingerprint(f, hash))
  {
    hide FilterText, ValidFingerprint;
  }

  /** Any two different filters are told apart by some digest and confused by another, so
      neither case above is empty. */
  lemma DigestsDiffer(f: Filters, g: Filters) returns (good: Digest, bad: Digest)
    requires f != g
    ensures IsDigest(good) && !Collide(f, g, good)
    ensures IsDigest(bad) && Collide(f, g, bad)
  {
    hide FilterText;
    var text := FilterText(f);
    FilterTextBinds(f, g);
    good := s => if s == text then seq(64, _ => 'a') else seq(64, _ => 'b');
    bad := s => seq(64, _ => 'a');
    assert good(FilterText(f))[0] != good(FilterText(g))[0];
  }

  // ---------------------------------------------------------------- a codec

  function PayloadValue(p: Payload): Json {
    Object(map["version" := Number(SignedDecimal(p.version)), "kind" := Str(p.kind),
      "filter_fingerprint" := Str(p.fingerprint), "resume_before_id" := Number(SignedDecimal(p.resumeBefore))])
  }

  function ReadNumber(v: Option<Json>): Option<int> {
    match v
    case Some(Number(t)) =>
      if t != "" && t[0] == '-' && AllDigits(t[1..]) then Some(-(DigitsValue(t[1..]) as int))
      else if AllDigits(t) then Some(DigitsValue(t))
      else None
    case _ => None
  }

  /** The payload as JSON, without the base64 around it. */
  ghost function JsonWrite(p: Payload): string { Canonical(PayloadValue(p)) }

  function JsonRead(text: string): Option<Payload> {
    match ReadValue(text)
    case Some((v, "")) =>
      if !v.Object? || v.fields.Keys != {"version", "kind", "filter_fingerprint", "resume_before_id"} then None else
      var version, id := ReadNumber(Get(v, "version")), ReadNumber(Get(v, "resume_before_id"));
      var kind, fingerprint := GetText(v, "kind"), GetText(v, "filter_fingerprint");
      if version.Some? && kind.Some? && fingerprint.Some? && id.Some?
      then Some(Payload(version.value, kind.value, fingerprint.value, id.value)) else None
    case _ => None
  }

  lemma SignedRoundTrip(n: int)
    ensures IsNumberText(SignedDecimal(n)) && ReadNumber(Some(Number(SignedDecimal(n)))) == Some(n)
  {
    hide DigitsValue;
    var m := if n < 0 then -n else n;
    DecimalRoundTrip(m);
    DecimalIsDigits(m);
    var t := SignedDecimal(n);
    assert n < 0 ==> t[1..] == Decimal(m);
    forall i | 0 <= i < |t| ensures IsNumberChar(t[i]) {
      assert t[i] == if n >= 0 then Decimal(m)[i] else if i == 0 then '-' else Decimal(m)[i - 1];
    }
  }

  lemma DecimalIsDigits(m: nat)
    ensures AllDigits(Decimal(m)) && Decimal(m) != "" && Decimal(m)[0] != '-'
    ensures forall i :: 0 <= i < |Decimal(m)| ==> IsNumberChar(Decimal(m)[i])
  {
    assert AllDigits(Decimal(m));
  }

  /** Payloads written as JSON are read back, so there is a codec as assumed. */
  lemma JsonReadsBack()
    ensures ReadsBack(Codec(JsonWrite, JsonRead))
  {
    forall p: Payload ensures JsonWrite(p) != "" && JsonRead(JsonWrite(p)) == Some(p) { PayloadRoundTrip(p); }
  }

  lemma PayloadRoundTrip(p: Payload)
    ensures JsonWrite(p) != "" && JsonRead(JsonWrite(p)) == Some(p)
  {
    hide Canonical, ReadValue, SignedDecimal, IsNumberText, ReadNumber;
    SignedRoundTrip(p.version);
    SignedRoundTrip(p.resumeBefore);
    RoundTrip(PayloadValue(p), "");
    assert Canonical(PayloadValue(p)) + "" == JsonWrite(p);
  }

  // ---------------------------------------------------------------- the request

  datatype Params = Params(project: Option<string>, status: Option<string>, pageSize: Option<string>,
          cursor: Option<string>)

  datatype Response =
    | PageSizeInvalid
    | CursorInvalid
    | Broke
    | List(data: seq<int>, nextCursor: Option<string>, pageSize: nat)

  function NormalizeFilter(o: Option<string>): Option<string> {
    if o.Some? && Trim(o.value) != "" then Some(Trim(o.value)) else None
  }

  /** The request asks for `s`: its parameter is `s` with nothing but white space around. */
  ghost predicate AsksFor(o: Option<string>, s: string) {
    && s != "" && !IsWhitespace(s[0]) && !IsWhitespace(s[|s| - 1])
    && exists front, back :: o == Some(front + s + back) && forall c :: c in front + back ==> IsWhitespace(c)
  }

  /** A filter is what the request asks for, and none if that is nothing. */
  lemma FilterExactly(o: Option<string>, s: string)
    ensures NormalizeFilter(o) == Some(s) <==> AsksFor(o, s)
  {
    hide IsWhitespace, TrimMatches;
    if o.Some? {
      var front, core, back := TrimParts(o.value, c => IsWhitespace(c));
      assert core == Trim(o.value);
      if core != "" {
        assert o == Some(front + core + back) && forall c :: c in front + back ==> IsWhitespace(c);
        assert AsksFor(o, core);
      }
      forall f, b | s != "" && !IsWhitespace(s[0]) && !IsWhitespace(s[|s| - 1])
                    && o == Some(f + s + b) && forall c :: c in f + b ==> IsWhitespace(c)
        ensures s == core
      {
        TrimsTo(f, s, b);
      }
    }
  }

  lemma TrimsTo(front: string, s: string, back: string)
    requires s != "" && !IsWhitespace(s[0]) && !IsWhitespace(s[|s| - 1])
    requires forall c :: c in front + back ==> IsWhitespace(c)
    ensures Trim(front + s + back) == s
  {
    hide IsWhitespace, TrimMatches;
    assert forall i :: 0 <= i < |front| ==> front[i] in front + back;
    assert forall i :: 0 <= i < |back| ==> back[i] in front + back;
    TrimAround(front, s, back, c => IsWhitespace(c));
  }

  lemma SameAsked(a: Option<string>, b: Option<string>)
    requires forall o: Option<string>, s :: NormalizeFilter(o) == Some(s) <==> AsksFor(o, s)
    ensures NormalizeFilter(a) == NormalizeFilter(b) <==> forall s :: AsksFor(a, s) <==> AsksFor(b, s)
  {
    hide AsksFor, NormalizeFilter;
    if NormalizeFilter(a).Some? { assert AsksFor(a, NormalizeFilter(a).value); }
    if NormalizeFilter(b).Some? { assert AsksFor(b, NormalizeFilter(b).value); }
  }

  function ParsePageSize(raw: Option<string>): (r: Option<nat>)
    ensures r.Some? ==> 1 <= r.value <= MAX_PAGE_SIZE
    ensures raw.None? ==> r == Some(DEFAULT_PAGE_SIZE)
  {
    if raw.None? then Some(DEFAULT_PAGE_SIZE)
    else
      match ParseInteger(raw.value, true, MIN_I64, MAX_I64)
      case None => None
      case Some(n) => Some(if n < 1 then 1 else if n > MAX_PAGE_SIZE then MAX_PAGE_SIZE else n)
  }

  /** `raw` is a sign, or none, and decimal digits for `n`. */
  predicate Spells(raw: string, sign: string, digits: string, n: int) {
    && raw == sign + digits && sign in {"", "+", "-"} && digits != "" && AllDigits(digits)
    && n == if sign == "-" then -(DigitsValue(digits) as int) else DigitsValue(digits)
  }

  ghost predicate IsNumber(raw: string, n: int) { exists sign, digits :: Spells(raw, sign, digits, n) }

  /** A page size is read from exactly the texts of 64-bit numbers: a number from 1 to 100
      is kept, a smaller or larger one is moved to the nearer end. No text means 50. */
  lemma PageSizeExactly(raw: string, size: nat)
    ensures ParsePageSize(None) == Some(50)
    ensures ParsePageSize(Some(raw)) == Some(size)
      <==> exists n :: IsNumber(raw, n) && -0x8000_0000_0000_0000 <= n <= 0x7fff_ffff_ffff_ffff
                       && (if n < 1 then size == 1 else if n > 100 then size == 100 else size == n)
  {
    hide AllDigits, DigitsValue;
    if ParsePageSize(Some(raw)).Some? {
      var sign := if raw[0] == '+' || raw[0] == '-' then [raw[0]] else "";
      var n := ParseInteger(raw, true, MIN_I64, MAX_I64).value;
      assert raw == sign + raw[|sign|..];
      assert Spells(raw, sign, raw[|sign|..], n);
      assert IsNumber(raw, n);
    }
    forall n | IsNumber(raw, n) && MIN_I64 <= n <= MAX_I64
      ensures ParseInteger(raw, true, MIN_I64, MAX_I64) == Some(n)
    {
      var sign, digits :| Spells(raw, sign, digits, n);
      NumberIsRead(raw, sign, digits, n);
    }
  }

  lemma NumberIsRead(raw: string, sign: string, digits: string, n: int)
    requires Spells(raw, sign, digits, n) && MIN_I64 <= n <= MAX_I64
    ensures ParseInteger(raw, true, MIN_I64, MAX_I64) == Some(n)
  {
    assert AllDigits(digits) && digits[0] != '+' && digits[0] != '-';
    assert raw[|sign|..] == digits;
  }

  function FiltersOf(p: Params, pageSize: nat): Filters {
    Filters(pageSize, NormalizeFilter(p.project), NormalizeFilter(p.status))
  }

  /** Two requests filter alike exactly if they want the same size and ask for the same. */
  lemma FiltersKeptApart(p: Params, n: nat, q: Params, m: nat)
    ensures FiltersOf(p, n) == FiltersOf(q, m) <==>
      && n == m && (forall s :: AsksFor(p.project, s) <==> AsksFor(q.project, s))
      && (forall s :: AsksFor(p.status, s) <==> AsksFor(q.status, s))
  {
    hide AsksFor, NormalizeFilter;
    forall o: Option<string>, s ensures NormalizeFilter(o) == Some(s) <==> AsksFor(o, s) { FilterExactly(o, s); }
    SameAsked(p.project, q.project);
    SameAsked(p.status, q.status);
  }

  /** The answer to a request that found `t`. */
  ghost function Answer(t: Table, kind: Kind, p: Params, codec: Codec, hash: Digest): Response {
    match ParsePageSize(p.pageSize)
    case None => PageSizeInvalid
    case Some(size) =>
      var fingerprint := Fingerprint(FiltersOf(p, size), hash);
      if p.cursor.Some? && DecodeCursor(p.cursor.value, kind, fingerprint, codec).Err? then CursorInvalid
      else
        var before := if p.cursor.None? then None
          else Some(DecodeCursor(p.cursor.value, kind, fingerprint, codec).value);
        match PageAt(Below(t, before), size)
        case Err => Broke
        case Ok(page) =>
          if page.next.None? then List(page.items, None, size)
          else
            match EncodeCursor(kind, fingerprint, page.next.value, codec)
            case Err => Broke
            case Ok(cursor) => List(page.items, Some(cursor), size)
  }

  /** `fingerprint` is the filters' digest, worked out elsewhere. */
  method ListResource(t: Table, kind: Kind, p: Params, codec: Codec, ghost hash: Digest,
          fingerprintOf: Filters -> string)
    returns (r: Response)
    requires Descending(t) && forall f :: fingerprintOf(f) == Fingerprint(f, hash)
    ensures r == Answer(t, kind, p, codec, hash)
  {
    hide Descending, Below, PageAt, Fingerprint, DecodeCursor, EncodeCursor;
    var parsed := ParsePageSize(p.pageSize);
    if parsed.None? { return PageSizeInvalid; }
    var size := parsed.value;
    var fingerprint := fingerprintOf(FiltersOf(p, size));
    var before: Option<int> := None;
    if p.cursor.Some? {
      var decoded := DecodeCursor(p.cursor.value, kind, fingerprint, codec);
      if decoded.Err? { return CursorInvalid; }
      before := Some(decoded.value);
    }
    var page := ListPage(t, before, size);
    if page.Err? { return Broke; }
    if page.value.next.None? { return List(page.value.items, None, size); }
    var cursor := EncodeCursor(kind, fingerprint, page.value.next.value, codec);
    if cursor.Err? { return Broke; }
    return List(page.value.items, Some(cursor.value), size);
  }

  /** Where the request for `p` starts reading. */
  ghost function StartOf(kind: Kind, p: Params, size: nat, codec: Codec, hash: Digest): Result<Option<int>> {
    if p.cursor.None? then Ok(None)
    else
      match DecodeCursor(p.cursor.value, kind, Fingerprint(FiltersOf(p, size), hash), codec)
      case Err => Err
      case Ok(id) => Ok(Some(id))
  }

  /** Every answer there is: an unreadable page size is refused before the cursor is looked
      at, and a cursor that is not for this list before the table is read; then the page
      comes as it is cut behind the cursor, with a cursor of its own exactly if the page
      goes on, and the request fails exactly if the page does. */
  lemma AnswersExactly(t: Table, kind: Kind, p: Params, codec: Codec, hash: Digest)
    requires Descending(t) && IsDigest(hash)
    ensures var r, size := Answer(t, kind, p, codec, hash), ParsePageSize(p.pageSize);
      && (r == PageSizeInvalid <==> size == None)
      && (r == CursorInvalid <==> size != None && StartOf(kind, p, size.value, codec, hash) == Err)
      && (size != None && StartOf(kind, p, size.value, codec, hash).Ok? ==>
            var page := PageAt(Below(t, StartOf(kind, p, size.value, codec, hash).value), size.value);
            && (page == Err ==> r == Broke)
            && (page.Ok? && page.value.next == None ==> r == List(page.value.items, None, size.value))
            && (page.Ok? && page.value.next != None ==>
                  var fingerprint := Fingerprint(FiltersOf(p, size.value), hash);
                  r == List(page.value.items,
                            Some(codec.write(Payload(1, KindName(kind), fingerprint, page.value.next.value))),
                            size.value)))
  {
    hide Descending, Below, PageAt, Fingerprint, IsDigest, ValidFingerprint, KindName, ParsePageSize, DecodeCursor;
    var size := ParsePageSize(p.pageSize);
    if size.Some? && StartOf(kind, p, size.value, codec, hash).Ok? {
      var before := StartOf(kind, p, size.value, codec, hash).value;
      FingerprintIsValid(FiltersOf(p, size.value), hash);
      NextIsPositive(t, before, size.value);
    }
  }

  lemma NextIsPositive(t: Table, before: Option<int>, size: nat)
    requires Descending(t)
    ensures var page := PageAt(Below(t, before), size);
      page.Ok? && page.value.next.Some? ==> page.value.next.value > 0
  {
    PositiveIds(t, before);
  }

  /** Asking again with the cursor just received goes on where the page ended, whatever the
      table has become; with another kind, page size or filter the cursor is refused, but
      for a collision of the digest. */
  lemma NextRequestGoesOn(t: Table, t2: Table, kind: Kind, p: Params, kind2: Kind, p2: Params, codec: Codec,
          hash: Digest)
    requires Descending(t) && Descending(t2) && ReadsBack(codec) && IsDigest(hash)
    requires var r := Answer(t, kind, p, codec, hash); r.List? && r.nextCursor.Some? && p2.cursor == r.nextCursor
    requires ParsePageSize(p2.pageSize).Some?
    ensures var size, size2 := ParsePageSize(p.pageSize).value, ParsePageSize(p2.pageSize).value;
      && StartOf(kind, p, size, codec, hash).Ok?
      && var page := PageAt(Below(t, StartOf(kind, p, size, codec, hash).value), size);
      && page.Ok? && page.value.next.Some?
      && StartOf(kind2, p2, size2, codec, hash)
         == (if SameList(kind, FiltersOf(p, size), kind2, FiltersOf(p2, size2), hash) then Ok(page.value.next) else Err)
      && (Answer(t2, kind2, p2, codec, hash).CursorInvalid?
        <==> !SameList(kind, FiltersOf(p, size), kind2, FiltersOf(p2, size2), hash))
  {
    hide Descending, Below, PageAt, Fingerprint, ReadsBack, IsDigest, ValidFingerprint, KindName, ParsePageSize,
      DecodeCursor, SameList;
    var size, size2 := ParsePageSize(p.pageSize).value, ParsePageSize(p2.pageSize).value;
    var page := PageAt(Below(t, StartOf(kind, p, size, codec, hash).value), size);
    CursorBindsRequest(kind, FiltersOf(p, size), page.value.next.value, kind2, FiltersOf(p2, size2), codec, hash);
  }
}
