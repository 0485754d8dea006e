/** Signed cards, revocation lists and the trust store of uxsp/core/signing.py. */
module Certificates {
  import opened Wrappers
  import opened Bytes
  import opened BindFields
  import opened Sorting
  import opened Ideal

  // ------------------------------------------------------------------ the canonical form of a list

  /** (cert_id, revocation_date, reason) */
  datatype Entry = Entry(certId: Text, date: int, reason: Text)

  function EntryText(e: Entry): Text {
    Numbered(e.certId, e.date) + [COLON] + e.reason
  }

  function EntryTexts(entries: seq<Entry>): (t: seq<Text>)
    ensures |t| == |entries|
    ensures forall i | 0 <= i < |t| :: t[i] == EntryText(entries[i])
  {
    seq(|entries|, i requires 0 <= i < |entries| => EntryText(entries[i]))
  }

  predicate ById(e: Entry, f: Entry) {
    LexLe(e.certId, f.certId)
  }

  ghost predicate DistinctIds(entries: seq<Entry>) {
    forall i, j | 0 <= i < j < |entries| :: entries[i].certId != entries[j].certId
  }

  const CRL_TAG := Ascii("UXSP-CRL-1")

  function CrlFields(issuer: Text, number: int, issuedAt: int, entries: seq<Entry>): seq<ByteString> {
    [CRL_TAG, issuer, Decimal(number), Decimal(issuedAt)] + EntryTexts(SortBy(entries, ById))
  }

  /** _crl_signable */
  method CrlSignable(issuer: Text, number: int, issuedAt: int, entries: seq<Entry>) returns (r: Option<ByteString>)
    ensures r == Bind(CrlFields(issuer, number, issuedAt, entries))
  {
    hide SortBy, EntryText, Decimal, Bind;
    var sorted := SortBy(entries, ById);
    var entriesBytes: seq<ByteString> := [];
    for i := 0 to |sorted|
      invariant |entriesBytes| == i && forall k | 0 <= k < i :: entriesBytes[k] == EntryText(sorted[k])
    {
      entriesBytes := entriesBytes + [EntryText(sorted[i])];
    }
    assert entriesBytes == EntryTexts(sorted);
    r := Bind([CRL_TAG, issuer, Decimal(number), Decimal(issuedAt)] + entriesBytes);
  }

  lemma ByIdOrders()
    ensures Orders(ById)
  {
    forall e, f: Entry ensures ById(e, f) || ById(f, e) {
      LexTotal(e.certId, f.certId);
    }
    forall e, f, g: Entry | ById(e, f) && ById(f, g) ensures ById(e, g) {
      LexTransitive(e.certId, f.certId, g.certId);
    }
  }

  lemma DistinctAreUntied(entries: seq<Entry>)
    requires DistinctIds(entries)
    ensures Untied(entries, ById)
  {
    forall e, f | e in entries && f in entries && ById(e, f) && ById(f, e) ensures e == f {
      LexAntisymmetric(e.certId, f.certId);
    }
  }

  /** The signed bytes do not depend on the order of the entries. */
  lemma CrlFieldsIgnoreOrder(issuer: Text, number: int, issuedAt: int, entries: seq<Entry>, reordered: seq<Entry>)
    requires DistinctIds(entries) && multiset(entries) == multiset(reordered)
    ensures CrlFields(issuer, number, issuedAt, entries) == CrlFields(issuer, number, issuedAt, reordered)
  {
    hide LexLe, EntryTexts, SortBy;
    ByIdOrders();
    DistinctAreUntied(entries);
    SortIgnoresOrder(entries, reordered, ById);
  }

  /** The texts that are signed appear in ascending order of their ids. */
  lemma EntriesAscend(entries: seq<Entry>, i: nat, j: nat)
    requires i < j < |entries|
    ensures var s := SortBy(entries, ById);
      LexLe(s[i].certId, s[j].certId) && EntryTexts(s)[i] == EntryText(s[i])
  {
    hide LexLe, SortBy;
    ByIdOrders();
    SortSorted(entries, ById);
    assert ById(SortBy(entries, ById)[i], SortBy(entries, ById)[j]);
  }

  // ------------------------------------------------------------------ when the bytes determine the entries

  /** The id continues a shorter id with a colon and a date, and ends there or goes on with a colon. */
  ghost predicate Splits(id: Text, prefix: Text, date: int, tail: Text) {
    id == Numbered(prefix, date) + tail && (tail == [] || tail[0] == COLON)
  }

  ghost predicate Ambiguous(id: Text) {
    exists prefix, date, tail :: Splits(id, prefix, date, tail)
  }

  lemma ColonFreeIsUnambiguous(id: Text)
    requires COLON !in id
    ensures !Ambiguous(id)
  {
    forall prefix, date, tail ensures !Splits(id, prefix, date, tail) {
      assert (Numbered(prefix, date) + tail)[|prefix|] == COLON;
    }
  }

  lemma SameTextSameId(e: Entry, f: Entry)
    requires EntryText(e) == EntryText(f) && |e.certId| == |f.certId|
    ensures e == f
  {
    hide Decimal;
    var n := |e.certId|;
    var t := EntryText(e);
    assert e.certId == t[..n] && f.certId == t[..n];
    assert Decimal(e.date) + [COLON] + e.reason == t[n + 1..];
    assert Decimal(f.date) + [COLON] + f.reason == EntryText(f)[n + 1..];
    FirstColon(Decimal(e.date), e.reason, Decimal(f.date), f.reason);
    DecimalInjective(e.date, f.date);
  }

  /** If the part before some colon of t is rest, it starts with the part before the first colon. */
  lemma ColonPrefix(rest: Text, x: Text, d: Text, y: Text) returns (tail: Text)
    requires COLON !in d && rest + [COLON] + x == d + [COLON] + y
    ensures rest == d + tail && (tail == [] || tail[0] == COLON)
  {
    ColonAt(d, y);
    var t := rest + [COLON] + x;
    assert t[|rest|] == COLON && rest == t[..|rest|];
    assert |rest| >= |d|;
    tail := rest[|d|..];
    assert rest[..|d|] == t[..|d|];
  }

  lemma LongerIdSplits(e: Entry, f: Entry) returns (rest: Text)
    requires EntryText(e) == EntryText(f) && |f.certId| < |e.certId|
    ensures e.certId == f.certId + [COLON] + rest
    ensures rest + [COLON] + (Decimal(e.date) + [COLON] + e.reason) == Decimal(f.date) + [COLON] + f.reason
  {
    hide Decimal;
    var n := |f.certId|;
    var t := EntryText(e);
    rest := e.certId[n + 1..];
    assert e.certId == t[..|e.certId|];
    assert t == f.certId + [COLON] + (Decimal(f.date) + [COLON] + f.reason);
    assert t[n] == COLON && t[..n] == f.certId && t[n + 1..] == Decimal(f.date) + [COLON] + f.reason;
    assert t == e.certId + [COLON] + (Decimal(e.date) + [COLON] + e.reason);
  }

  lemma SameTextLongerId(e: Entry, f: Entry)
    requires EntryText(e) == EntryText(f) && |f.certId| < |e.certId|
    ensures Ambiguous(e.certId)
  {
    hide Decimal, EntryText;
    var rest := LongerIdSplits(e, f);
    var tail := ColonPrefix(rest, Decimal(e.date) + [COLON] + e.reason, Decimal(f.date), f.reason);
    assert e.certId == Numbered(f.certId, f.date) + tail;
    assert Splits(e.certId, f.certId, f.date, tail);
  }

  lemma AmbiguousCollides(e: Entry, prefix: Text, date: int, tail: Text) returns (f: Entry)
    requires Splits(e.certId, prefix, date, tail)
    ensures |f.certId| < |e.certId| && EntryText(f) == EntryText(e)
  {
    hide Decimal;
    var more := tail + [COLON] + Decimal(e.date) + [COLON] + e.reason;
    f := Entry(prefix, date, more[1..]);
    assert more == [COLON] + more[1..];
    assert EntryText(f) == Numbered(prefix, date) + more;
    assert EntryText(e) == Numbered(prefix, date) + more;
  }

  /** The reason begins like the rest of a longer id, a colon, a date and a colon. */
  ghost predicate SplitsReason(reason: Text, tail: Text, date: int, rest: Text) {
    (tail == [] || tail[0] == COLON) && [COLON] + reason == tail + [COLON] + Decimal(date) + [COLON] + rest
  }

  ghost predicate ReasonSplits(reason: Text) {
    exists tail, date, rest :: SplitsReason(reason, tail, date, rest)
  }

  lemma SameTextShorterId(e: Entry, f: Entry)
    requires EntryText(e) == EntryText(f) && |e.certId| < |f.certId|
    ensures ReasonSplits(e.reason)
  {
    hide Decimal;
    var rest := LongerIdSplits(f, e);
    var d, x := Decimal(e.date), Decimal(f.date) + [COLON] + f.reason;
    var tail := ColonPrefix(rest, x, d, e.reason);
    assert d + tail + [COLON] + x == d + (tail + [COLON] + x) && d + [COLON] + e.reason == d + ([COLON] + e.reason);
    DropCommon(d, tail + [COLON] + x, [COLON] + e.reason);
    assert tail + [COLON] + x == tail + [COLON] + Decimal(f.date) + [COLON] + f.reason;
    assert SplitsReason(e.reason, tail, f.date, f.reason);
  }

  lemma DropCommon(d: Text, x: Text, y: Text)
    requires d + x == d + y
    ensures x == y
  {
    assert (d + x)[|d|..] == x && (d + y)[|d|..] == y;
  }

  lemma SplitReasonCollides(e: Entry, tail: Text, date: int, rest: Text) returns (f: Entry)
    requires SplitsReason(e.reason, tail, date, rest)
    ensures |f.certId| > |e.certId| && EntryText(f) == EntryText(e)
  {
    hide Decimal;
    f := Entry(Numbered(e.certId, e.date) + tail, date, rest);
    assert EntryText(e) == Numbered(e.certId, e.date) + ([COLON] + e.reason);
    assert EntryText(f) == Numbered(e.certId, e.date) + (tail + [COLON] + Decimal(date) + [COLON] + rest);
  }

  /** Nothing in the entry lets its text be read in another way. */
  ghost predicate Unmistakable(e: Entry) {
    !Ambiguous(e.certId) && !ReasonSplits(e.reason)
  }

  /** Another entry has the same text if and only if the id or the reason of this one can be split. */
  lemma CollidesExactlyWhenMistakable(e: Entry)
    ensures (exists f: Entry :: f != e && EntryText(f) == EntryText(e)) <==> !Unmistakable(e)
  {
    hide EntryText, Splits, SplitsReason;
    if f: Entry :| f != e && EntryText(f) == EntryText(e) {
      if |f.certId| == |e.certId| {
        SameTextSameId(e, f);
      } else if |f.certId| < |e.certId| {
        SameTextLongerId(e, f);
      } else {
        SameTextShorterId(e, f);
      }
    }
    if Ambiguous(e.certId) {
      var prefix, date, tail :| Splits(e.certId, prefix, date, tail);
      var f := AmbiguousCollides(e, prefix, date, tail);
      assert f != e;
    } else if ReasonSplits(e.reason) {
      var tail, date, rest :| SplitsReason(e.reason, tail, date, rest);
      var f := SplitReasonCollides(e, tail, date, rest);
      assert f != e;
    }
  }

  /** A colon-free id with a colon-free reason is unmistakable; a colon-free id alone is not enough. */
  lemma ColonFreeIsUnmistakable(e: Entry)
    requires COLON !in e.certId && COLON !in e.reason
    ensures Unmistakable(e)
  {
    hide Decimal;
    ColonFreeIsUnambiguous(e.certId);
    forall tail, date, rest ensures !SplitsReason(e.reason, tail, date, rest) {
      var t := tail + [COLON] + Decimal(date) + [COLON] + rest;
      var k := |tail| + 1 + |Decimal(date)|;
      assert t[k] == COLON && k > 0;
      assert forall i | 0 < i < |[COLON] + e.reason| :: ([COLON] + e.reason)[i] == e.reason[i - 1];
    }
  }

  /** A concrete pair of different lists with one canonical form. */
  lemma AmbiguousLists(issuer: Text, number: int, issuedAt: int)
    ensures var e, f := Entry(Ascii("a:1"), 2, Ascii("x")), Entry(Ascii("a"), 1, Ascii("2:x"));
      CrlFields(issuer, number, issuedAt, [e]) == CrlFields(issuer, number, issuedAt, [f])
  {
    var e, f := Entry(Ascii("a:1"), 2, Ascii("x")), Entry(Ascii("a"), 1, Ascii("2:x"));
    assert EntryText(e) == EntryText(f);
    SingletonTexts(e);
    SingletonTexts(f);
  }

  lemma SingletonTexts(e: Entry)
    ensures EntryTexts(SortBy([e], ById)) == [EntryText(e)]
  {
    assert [e][..0] == [];
    assert SortBy([e], ById) == [e];
  }

  lemma TextsDetermine(s: seq<Entry>, t: seq<Entry>)
    requires EntryTexts(s) == EntryTexts(t) && forall e | e in s :: Unmistakable(e)
    ensures s == t
  {
    hide Unmistakable, EntryText;
    assert |s| == |EntryTexts(s)| == |t|;
    forall i | 0 <= i < |s| ensures s[i] == t[i] {
      assert EntryText(s[i]) == EntryTexts(s)[i] == EntryTexts(t)[i] == EntryText(t[i]);
      CollidesExactlyWhenMistakable(s[i]);
    }
  }

  /** With unambiguous ids on both sides the reasons do not matter. */
  lemma TextsOfUnambiguousDetermine(s: seq<Entry>, t: seq<Entry>)
    requires EntryTexts(s) == EntryTexts(t) && forall e | e in s || e in t :: !Ambiguous(e.certId)
    ensures s == t
  {
    hide Ambiguous, EntryText;
    assert |s| == |EntryTexts(s)| == |t|;
    forall i | 0 <= i < |s| ensures s[i] == t[i] {
      var e, f := s[i], t[i];
      assert EntryText(e) == EntryTexts(s)[i] == EntryTexts(t)[i] == EntryText(f);
      if |e.certId| == |f.certId| {
        SameTextSameId(e, f);
      } else if |e.certId| < |f.certId| {
        SameTextLongerId(f, e);
      } else {
        SameTextLongerId(e, f);
      }
    }
  }

  /** What equal bytes force in any case: the head of the list and the texts of its sorted entries. */
  lemma CrlBytesDetermineTexts(issuer: Text, number: int, issuedAt: int, entries: seq<Entry>,
                               issuer': Text, number': int, issuedAt': int, entries': seq<Entry>)
    requires var f, g := CrlFields(issuer, number, issuedAt, entries), CrlFields(issuer', number', issuedAt', entries');
      AllShort(f) && AllShort(g) && Encoded(f) == Encoded(g)
    ensures issuer == issuer' && number == number' && issuedAt == issuedAt'
    ensures EntryTexts(SortBy(entries, ById)) == EntryTexts(SortBy(entries', ById))
  {
    hide Encoded, AllShort, Decimal, SortBy;
    var f, g := CrlFields(issuer, number, issuedAt, entries), CrlFields(issuer', number', issuedAt', entries');
    EncodedInjective(f, g);
    assert f[1] == g[1] && f[2] == g[2] && f[3] == g[3] && f[4..] == g[4..];
    DecimalInjective(number, number');
    DecimalInjective(issuedAt, issuedAt');
    assert f[4..] == EntryTexts(SortBy(entries, ById)) && g[4..] == EntryTexts(SortBy(entries', ById));
  }

  /** If no id of either list is ambiguous, equal bytes force equal content, whatever the reasons are. */
  lemma CrlBytesDetermine(issuer: Text, number: int, issuedAt: int, entries: seq<Entry>,
                          issuer': Text, number': int, issuedAt': int, entries': seq<Entry>)
    requires var f, g := CrlFields(issuer, number, issuedAt, entries), CrlFields(issuer', number', issuedAt', entries');
      AllShort(f) && AllShort(g) && Encoded(f) == Encoded(g)
    requires forall e | e in entries || e in entries' :: !Ambiguous(e.certId)
    ensures issuer == issuer' && number == number' && issuedAt == issuedAt'
    ensures multiset(entries) == multiset(entries')
  {
    hide CrlFields, Encoded, AllShort, SortBy, EntryTexts, Ambiguous;
    var s, t := SortBy(entries, ById), SortBy(entries', ById);
    CrlBytesDetermineTexts(issuer, number, issuedAt, entries, issuer', number', issuedAt', entries');
    forall e | e in s || e in t ensures !Ambiguous(e.certId) {
      SameElements(s, entries, e);
      SameElements(t, entries', e);
    }
    TextsOfUnambiguousDetermine(s, t);
  }

  /** If the entries of one list are unmistakable, nothing need be known of the other. */
  lemma UnmistakableBytesDetermine(issuer: Text, number: int, issuedAt: int, entries: seq<Entry>,
                                   issuer': Text, number': int, issuedAt': int, entries': seq<Entry>)
    requires var f, g := CrlFields(issuer, number, issuedAt, entries), CrlFields(issuer', number', issuedAt', entries');
      AllShort(f) && AllShort(g) && Encoded(f) == Encoded(g)
    requires forall e | e in entries :: Unmistakable(e)
    ensures issuer == issuer' && number == number' && issuedAt == issuedAt'
    ensures multiset(entries) == multiset(entries')
  {
    hide CrlFields, Encoded, AllShort, SortBy, EntryTexts, Unmistakable;
    var s, t := SortBy(entries, ById), SortBy(entries', ById);
    CrlBytesDetermineTexts(issuer, number, issuedAt, entries, issuer', number', issuedAt', entries');
    forall e | e in s ensures Unmistakable(e) {
      SameElements(s, entries, e);
    }
    TextsDetermine(s, t);
  }

  /** For lists of one entry the condition is exact. */
  lemma OneEntryDeterminesExactly(issuer: Text, number: int, issuedAt: int, e: Entry)
    ensures (exists f: Entry :: f != e && CrlFields(issuer, number, issuedAt, [f]) == CrlFields(issuer, number, issuedAt, [e]))
       <==> !Unmistakable(e)
  {
    hide EntryText, Unmistakable, SortBy, EntryTexts, Decimal;
    forall f: Entry ensures CrlFields(issuer, number, issuedAt, [f]) == CrlFields(issuer, number, issuedAt, [e]) <==> EntryText(f) == EntryText(e) {
      SingletonTexts(f);
      SingletonTexts(e);
      var a, b := CrlFields(issuer, number, issuedAt, [f]), CrlFields(issuer, number, issuedAt, [e]);
      assert a[4] == EntryText(f) && b[4] == EntryText(e);
    }
    CollidesExactlyWhenMistakable(e);
  }

  // ------------------------------------------------------------------ issuing a list

  datatype TrustError =
    | BadEntry | EncodingError | Untrusted | BadSignature | RevokedCard | WrongEntity | NotYetValid | Outdated

  /** An element of the list handed to issue_crl. */
  datatype RawEntry =
    | OfCard(certId: Text)
    | OfDict(maybeId: Option<Text>, date: Option<int>, reason: Option<Text>)
    | OfId(certId: Text)
    | OfOther

  /** revoked_certs as stored, received or given as a dictionary: date and reason may be missing. */
  datatype Revocation = Revocation(certId: Text, date: Option<int>, reason: Option<Text>)

  /** Either form of the argument of issue_crl. */
  datatype Revoked = AsList(raws: seq<RawEntry>) | AsDict(infos: seq<Revocation>) {
    /** The entries in order; those of a dictionary are complete. */
    function Raws(): (r: seq<RawEntry>)
      ensures AsDict? ==> |r| == |infos| && forall i | 0 <= i < |r| :: r[i] == OfDict(Some(infos[i].certId), infos[i].date, infos[i].reason)
    {
      if AsList? then raws
      else seq(|infos|, i requires 0 <= i < |infos| => OfDict(Some(infos[i].certId), infos[i].date, infos[i].reason))
    }
  }

  const UNSPECIFIED := Ascii("unspecified")

  function OrElse<T>(o: Option<T>, default: T): T {
    if o.Some? then o.value else default
  }

  function EntryOf(raw: RawEntry, now: int): Result<Entry, TrustError> {
    match raw
    case OfCard(id) => Ok(Entry(id, now, UNSPECIFIED))
    case OfId(id) => Ok(Entry(id, now, UNSPECIFIED))
    case OfDict(Some(id), date, reason) => Ok(Entry(id, OrElse(date, now), OrElse(reason, UNSPECIFIED)))
    case OfDict(None, _, _) => Err(BadEntry)
    case OfOther => Err(BadEntry)
  }

  /** certs_dict[cid] = info, on a dictionary that remembers insertion order. */
  function Put(d: seq<Entry>, e: Entry): (r: seq<Entry>)
    requires DistinctIds(d)
    ensures DistinctIds(r)
    ensures forall f :: f in r <==> f == e || (f in d && f.certId != e.certId)
  {
    if d == [] then [e]
    else if d[0].certId == e.certId then
      assert forall f | f in d[1..] :: f.certId != e.certId;
      [e] + d[1..]
    else
      assert forall f | f in d[1..] :: f.certId != d[0].certId;
      [d[0]] + Put(d[1..], e)
  }

  /** e stems from the last entry of the list with its id. */
  ghost predicate IsLast(raws: seq<RawEntry>, now: int, e: Entry, i: nat) {
    && i < |raws| && EntryOf(raws[i], now) == Ok(e)
    && forall j | i < j < |raws| :: Misses(raws[j], now, e.certId)
  }

  predicate Misses(raw: RawEntry, now: int, certId: Text) {
    EntryOf(raw, now).Ok? ==> EntryOf(raw, now).value.certId != certId
  }

  ghost predicate Latest(raws: seq<RawEntry>, now: int, e: Entry) {
    exists i: nat :: IsLast(raws, now, e, i)
  }

  lemma LatestGrows(raws: seq<RawEntry>, raw: RawEntry, now: int, e: Entry)
    requires EntryOf(raw, now).Ok?
    ensures var last := EntryOf(raw, now).value;
      Latest(raws + [raw], now, e) <==> e == last || (e.certId != last.certId && Latest(raws, now, e))
  {
    hide EntryOf;
    var last, more := EntryOf(raw, now).value, raws + [raw];
    if Latest(more, now, e) {
      var i: nat :| IsLast(more, now, e, i);
      if i < |raws| {
        assert Misses(more[|raws|], now, e.certId);
        assert forall j | i < j < |raws| :: more[j] == raws[j];
        assert IsLast(raws, now, e, i);
      }
    }
    if e == last {
      assert IsLast(more, now, e, |raws|);
    } else if e.certId != last.certId && Latest(raws, now, e) {
      var i: nat :| IsLast(raws, now, e, i);
      assert IsLast(more, now, e, i);
    }
  }

  /** The loop of issue_crl over a list: a later entry for an id replaces an earlier one. */
  method CollectList(raws: seq<RawEntry>, now: int) returns (r: Result<seq<Entry>, TrustError>)
    ensures r.Ok? <==> forall i | 0 <= i < |raws| :: EntryOf(raws[i], now).Ok?
    ensures r.Err? ==> r.error == BadEntry
    ensures r.Ok? ==> DistinctIds(r.value) && forall e :: e in r.value <==> Latest(raws, now, e)
  {
    hide EntryOf, Put, Misses;
    var d: seq<Entry> := [];
    for k := 0 to |raws|
      invariant forall i | 0 <= i < k :: EntryOf(raws[i], now).Ok?
      invariant DistinctIds(d)
      invariant forall e :: e in d <==> Latest(raws[..k], now, e)
    {
      var e := EntryOf(raws[k], now);
      if e.Err? {
        return Err(BadEntry);
      }
      forall f ensures f in Put(d, e.value) <==> Latest(raws[..k + 1], now, f) {
        assert raws[..k + 1] == raws[..k] + [raws[k]];
        LatestGrows(raws[..k], raws[k], now, f);
      }
      d := Put(d, e.value);
    }
    assert raws[..|raws|] == raws;
    return Ok(d);
  }

  datatype Crl = Crl(issuer: Text, number: int, issuedAt: int, revoked: seq<Revocation>, sig: Signature)

  /** What an element of the list stands for: the present moment and no reason, unless it says otherwise. */
  lemma RawEntryMeans(raw: RawEntry, now: int)
    ensures raw.OfCard? || raw.OfId? ==> EntryOf(raw, now) == Ok(Entry(raw.certId, now, Ascii("unspecified")))
    ensures raw.OfDict? && raw.maybeId.Some? ==>
      && EntryOf(raw, now).Ok? && EntryOf(raw, now).value.certId == raw.maybeId.value
      && EntryOf(raw, now).value.date == (if raw.date.Some? then raw.date.value else now)
      && EntryOf(raw, now).value.reason == (if raw.reason.Some? then raw.reason.value else Ascii("unspecified"))
    ensures EntryOf(raw, now).Err? <==> raw.OfOther? || (raw.OfDict? && raw.maybeId.None?)
  {}

  /** Its loop over a dictionary. */
  method CollectDict(infos: seq<Revocation>, now: int) returns (d: seq<Entry>)
    ensures DistinctIds(d) && forall e :: e in d <==> Latest(AsDict(infos).Raws(), now, e)
  {
    hide Put, Misses;
    var raws := AsDict(infos).Raws();
    d := [];
    for k := 0 to |infos|
      invariant DistinctIds(d)
      invariant forall e :: e in d <==> Latest(raws[..k], now, e)
    {
      var e := Default(infos[k], now);
      forall f ensures f in Put(d, e) <==> Latest(raws[..k + 1], now, f) {
        assert raws[..k + 1] == raws[..k] + [raws[k]];
        LatestGrows(raws[..k], raws[k], now, f);
      }
      d := Put(d, e);
    }
    assert raws[..|infos|] == raws;
  }

  method Collect(revoked: Revoked, now: int) returns (r: Result<seq<Entry>, TrustError>)
    ensures r.Ok? <==> forall i | 0 <= i < |revoked.Raws()| :: EntryOf(revoked.Raws()[i], now).Ok?
    ensures r.Err? ==> r.error == BadEntry
    ensures r.Ok? ==> DistinctIds(r.value) && forall e :: e in r.value <==> Latest(revoked.Raws(), now, e)
  {
    hide Latest, DistinctIds;
    match revoked {
      case AsList(raws) =>
        assert revoked.Raws() == raws;
        r := CollectList(raws, now);
      case AsDict(infos) =>
        assert forall i | 0 <= i < |infos| :: EntryOf(revoked.Raws()[i], now) == Ok(Default(infos[i], now));
        assert revoked.Raws() == AsDict(infos).Raws();
        var d := CollectDict(infos, now);
        r := Ok(d);
    }
  }

  function Default(v: Revocation, issuedAt: int): Entry {
    Entry(v.certId, OrElse(v.date, issuedAt), OrElse(v.reason, UNSPECIFIED))
  }

  function Defaults(revoked: seq<Revocation>, issuedAt: int): (d: seq<Entry>)
    ensures |d| == |revoked|
    ensures forall i | 0 <= i < |d| :: d[i] == Default(revoked[i], issuedAt)
  {
    seq(|revoked|, i requires 0 <= i < |revoked| => Default(revoked[i], issuedAt))
  }

  function Stored(entries: seq<Entry>): (v: seq<Revocation>)
    ensures |v| == |entries|
    ensures forall i | 0 <= i < |v| :: v[i] == Revocation(entries[i].certId, Some(entries[i].date), Some(entries[i].reason))
  {
    seq(|entries|, i requires 0 <= i < |entries| => Revocation(entries[i].certId, Some(entries[i].date), Some(entries[i].reason)))
  }

  function FieldsOf(c: Crl): seq<ByteString> {
    CrlFields(c.issuer, c.number, c.issuedAt, Defaults(c.revoked, c.issuedAt))
  }

  /** CertificateRevocationList.verify, against the public keys held by keysOf. */
  predicate VerifiesUnder(c: Crl, keysOf: Text) {
    AllShort(FieldsOf(c)) && c.sig == Signature(keysOf, Encoded(FieldsOf(c)))
  }

  /** The list still revokes what the dictionary says, once per certificate. */
  ghost predicate WellKeyed(c: Crl) {
    DistinctIds(Defaults(c.revoked, c.issuedAt))
  }

  method IssueCrl(issuer: Text, revoked: Revoked, number: int, now: int) returns (r: Result<Crl, TrustError>)
    ensures r.Ok? ==> VerifiesUnder(r.value, issuer) && WellKeyed(r.value)
    ensures r.Ok? ==> r.value.issuer == issuer && r.value.number == number && r.value.issuedAt == now
    ensures r.Ok? ==> forall e :: e in Defaults(r.value.revoked, now) <==> Latest(revoked.Raws(), now, e)
    ensures r == Err(BadEntry) <==> exists i :: 0 <= i < |revoked.Raws()| && EntryOf(revoked.Raws()[i], now).Err?
  {
    hide EntryOf, CrlFields, Encoded, Latest, DistinctIds, Parse, AllShort;
    var collected := Collect(revoked, now);
    if collected.Err? {
      return Err(BadEntry);
    }
    var entries := collected.value;
    var signable := CrlSignable(issuer, number, now, entries);
    if signable.None? {
      return Err(EncodingError);
    }
    assert Defaults(Stored(entries), now) == entries;
    r := Ok(Crl(issuer, number, now, Stored(entries), Signature(issuer, signable.value)));
  }

  lemma DefaultsSplit(s: seq<Revocation>, k: nat, issuedAt: int)
    requires k < |s|
    ensures multiset(Defaults(s, issuedAt)) == multiset{Default(s[k], issuedAt)} + multiset(Defaults(s[..k] + s[k + 1..], issuedAt))
  {
    hide Default;
    var d := Defaults(s, issuedAt);
    RemoveOne(d, k);
    assert d[..k] + d[k + 1..] == Defaults(s[..k] + s[k + 1..], issuedAt);
  }

  lemma {:induction false} DefaultsOfReordering(s: seq<Revocation>, t: seq<Revocation>, issuedAt: int)
    requires multiset(s) == multiset(t)
    ensures multiset(Defaults(s, issuedAt)) == multiset(Defaults(t, issuedAt))
  {
    hide Defaults, Default;
    if s == [] {
      SameLength(s, t);
      assert s == t;
    } else {
      var k := Elsewhere(s, t);
      DefaultsSplit(s, 0, issuedAt);
      DefaultsSplit(t, k, issuedAt);
      DefaultsOfReordering(s[..0] + s[1..], t[..k] + t[k + 1..], issuedAt);
    }
  }

  /** A list verifies or fails alike after its dictionary was reordered, say by a JSON round trip. */
  lemma ReorderedVerifiesAlike(c: Crl, reordered: seq<Revocation>, keysOf: Text)
    requires WellKeyed(c) && multiset(c.revoked) == multiset(reordered)
    ensures VerifiesUnder(c.(revoked := reordered), keysOf) <==> VerifiesUnder(c, keysOf)
  {
    hide CrlFields, AllShort, Encoded, DistinctIds;
    DefaultsOfReordering(c.revoked, reordered, c.issuedAt);
    CrlFieldsIgnoreOrder(c.issuer, c.number, c.issuedAt, Defaults(c.revoked, c.issuedAt), Defaults(reordered, c.issuedAt));
  }

  /** A revocation with its date and reason written out. */
  function Completed(v: Revocation, issuedAt: int): Revocation {
    Revocation(v.certId, Some(if v.date.Some? then v.date.value else issuedAt),
               Some(if v.reason.Some? then v.reason.value else Ascii("unspecified")))
  }

  /** A list from whose dictionary default dates and reasons were left out verifies like the full one. */
  lemma OmittedDefaultsVerifyAlike(c: Crl, full: seq<Revocation>, keysOf: Text)
    requires |full| == |c.revoked|
    requires forall i | 0 <= i < |full| :: full[i] == Completed(c.revoked[i], c.issuedAt)
    ensures VerifiesUnder(c.(revoked := full), keysOf) <==> VerifiesUnder(c, keysOf)
  {
    hide CrlFields, AllShort, Encoded;
    assert Defaults(full, c.issuedAt) == Defaults(c.revoked, c.issuedAt);
  }

  // ------------------------------------------------------------------ signed cards

  datatype CardBody = CardBody(entityId: Text, name: Text, role: Text, createdAt: Text, exchangePub: ByteString,
                               kemPub: ByteString, signingPub: ByteString, pqcSigPub: ByteString, keyVersion: int)

  datatype SignedCard = SignedCard(card: CardBody, certId: Text, issuer: Text, notBefore: int, notAfter: int, sig: Signature)

  /** _card_signable. The issuer is not among the fields; its key is what signs them. */
  function CardFields(card: CardBody, notBefore: int, notAfter: int, certId: Text): seq<ByteString> {
    [card.entityId, card.name, card.role, card.createdAt, card.exchangePub, card.kemPub, card.signingPub, card.pqcSigPub,
     Decimal(card.keyVersion), Decimal(notBefore), Decimal(notAfter), certId]
  }

  lemma CardBytesDetermine(c: CardBody, nb: int, na: int, id: Text, c': CardBody, nb': int, na': int, id': Text)
    requires var f, g := CardFields(c, nb, na, id), CardFields(c', nb', na', id');
      AllShort(f) && AllShort(g) && Encoded(f) == Encoded(g)
    ensures c == c' && nb == nb' && na == na' && id == id'
  {
    hide Encoded, AllShort, Decimal;
    var f, g := CardFields(c, nb, na, id), CardFields(c', nb', na', id');
    EncodedInjective(f, g);
    assert f[0] == g[0] && f[1] == g[1] && f[2] == g[2] && f[3] == g[3] && f[4] == g[4] && f[5] == g[5];
    assert f[6] == g[6] && f[7] == g[7] && f[8] == g[8] && f[9] == g[9] && f[10] == g[10] && f[11] == g[11];
    DecimalInjective(c.keyVersion, c'.keyVersion);
    DecimalInjective(nb, nb');
    DecimalInjective(na, na');
  }

  /** The signed bytes of a card are never those of a list: its key version, in the place of an entry, has no colon. */
  lemma CardIsNoCrl(c: CardBody, nb: int, na: int, id: Text, issuer: Text, number: int, issuedAt: int, entries: seq<Entry>)
    requires AllShort(CardFields(c, nb, na, id)) && AllShort(CrlFields(issuer, number, issuedAt, entries))
    ensures Encoded(CardFields(c, nb, na, id)) != Encoded(CrlFields(issuer, number, issuedAt, entries))
  {
    hide Encoded, AllShort, SortBy, Decimal;
    var f, g := CardFields(c, nb, na, id), CrlFields(issuer, number, issuedAt, entries);
    assert COLON !in f[8];
    if |g| > 8 {
      EntryHasColon(SortBy(entries, ById)[4]);
      assert g[8] == EntryText(SortBy(entries, ById)[4]);
    }
    assert f != g;
    if Encoded(f) == Encoded(g) {
      EncodedInjective(f, g);
    }
  }

  lemma EntryHasColon(e: Entry)
    ensures COLON in EntryText(e)
  {
    assert EntryText(e)[|e.certId|] == COLON;
  }

  // ------------------------------------------------------------------ everything an anchor signed

  /** No revocation list: the first field is not the tag, or something in the place of an entry has no colon. */
  predicate OtherThanCrl(fields: seq<ByteString>) {
    fields == [] || fields[0] != CRL_TAG || exists k :: 4 <= k < |fields| && COLON !in fields[k]
  }

  /** A signature on a message of another kind: a card, an envelope, a handshake message. */
  ghost predicate SignsNoCrl(s: Signature, keysOf: Text) {
    exists fields :: OtherThanCrl(fields) && AllShort(fields) && s == Signature(keysOf, Encoded(fields))
  }

  /** Whatever an honest anchor's key signed: the lists it issued, and messages of other kinds. */
  ghost predicate SignedByAnchor(keysOf: Text, crls: set<Crl>, signed: set<Signature>) {
    && (forall c | c in crls :: VerifiesUnder(c, keysOf))
    && (forall s | s in signed :: (exists c :: c in crls && c.sig == s) || SignsNoCrl(s, keysOf))
  }

  function FieldsOfCard(k: SignedCard): seq<ByteString> {
    CardFields(k.card, k.notBefore, k.notAfter, k.certId)
  }

  /** A condition on the received list alone. */
  ghost predicate AllUnmistakable(c: Crl) {
    forall e | e in Defaults(c.revoked, c.issuedAt) :: Unmistakable(e)
  }

  ghost predicate SameContent(c: Crl, d: Crl) {
    && c.issuer == d.issuer && c.number == d.number && c.issuedAt == d.issuedAt
    && multiset(Defaults(c.revoked, c.issuedAt)) == multiset(Defaults(d.revoked, d.issuedAt))
  }

  /** The signature of a list that verifies is that of a list the anchor issued. */
  lemma VerifiedListHasIssuer(c: Crl, keysOf: Text, crls: set<Crl>, signed: set<Signature>) returns (d: Crl)
    requires SignedByAnchor(keysOf, crls, signed) && VerifiesUnder(c, keysOf) && c.sig in signed
    ensures d in crls && AllShort(FieldsOf(d)) && Encoded(FieldsOf(d)) == Encoded(FieldsOf(c))
  {
    hide CrlFields, AllShort, Encoded, Defaults, OtherThanCrl;
    if SignsNoCrl(c.sig, keysOf) {
      var fields :| OtherThanCrl(fields) && AllShort(fields) && c.sig == Signature(keysOf, Encoded(fields));
      EncodedInjective(fields, FieldsOf(c));
      CrlIsNotOther(c);
    }
    d :| d in crls && d.sig == c.sig;
  }

  /** A list with unmistakable entries that verifies is one the anchor issued, up to the order of its entries. */
  lemma VerifiedListWasIssued(c: Crl, keysOf: Text, crls: set<Crl>, signed: set<Signature>)
    requires SignedByAnchor(keysOf, crls, signed) && VerifiesUnder(c, keysOf) && c.sig in signed
    requires AllUnmistakable(c)
    ensures exists d :: d in crls && SameContent(c, d)
  {
    hide CrlFields, AllShort, Encoded, Unmistakable, Defaults, OtherThanCrl;
    var d := VerifiedListHasIssuer(c, keysOf, crls, signed);
    UnmistakableBytesDetermine(c.issuer, c.number, c.issuedAt, Defaults(c.revoked, c.issuedAt),
                               d.issuer, d.number, d.issuedAt, Defaults(d.revoked, d.issuedAt));
    assert SameContent(c, d);
  }

  ghost predicate ColonFreeIds(c: Crl) {
    forall i | 0 <= i < |c.revoked| :: COLON !in c.revoked[i].certId
  }

  lemma ColonFreeIdsUnambiguous(c: Crl)
    requires ColonFreeIds(c)
    ensures forall e | e in Defaults(c.revoked, c.issuedAt) :: !Ambiguous(e.certId)
  {
    hide Ambiguous;
    forall e | e in Defaults(c.revoked, c.issuedAt) ensures !Ambiguous(e.certId) {
      ColonFreeIsUnambiguous(e.certId);
    }
  }

  /** So is any list with colon-free ids, whatever its reasons, under an anchor that listed colon-free ids only. */
  lemma VerifiedColonFreeListWasIssued(c: Crl, keysOf: Text, crls: set<Crl>, signed: set<Signature>)
    requires SignedByAnchor(keysOf, crls, signed) && VerifiesUnder(c, keysOf) && c.sig in signed
    requires ColonFreeIds(c) && forall d | d in crls :: ColonFreeIds(d)
    ensures exists d :: d in crls && SameContent(c, d)
  {
    hide CrlFields, AllShort, Encoded, Defaults, OtherThanCrl, ColonFreeIds, Ambiguous;
    var d := VerifiedListHasIssuer(c, keysOf, crls, signed);
    ColonFreeIdsUnambiguous(c);
    ColonFreeIdsUnambiguous(d);
    CrlBytesDetermine(c.issuer, c.number, c.issuedAt, Defaults(c.revoked, c.issuedAt),
                      d.issuer, d.number, d.issuedAt, Defaults(d.revoked, d.issuedAt));
    assert SameContent(c, d);
  }

  lemma CrlIsNotOther(c: Crl)
    ensures !OtherThanCrl(FieldsOf(c))
  {
    hide SortBy, EntryText, Decimal;
    var fields, s := FieldsOf(c), SortBy(Defaults(c.revoked, c.issuedAt), ById);
    forall k | 4 <= k < |fields| ensures COLON in fields[k] {
      EntryHasColon(s[k - 4]);
      assert fields[k] == EntryText(s[k - 4]);
    }
  }

  // ------------------------------------------------------------------ the trust store

  /** dict(revoked_certs) as a map: a later entry for an id wins, as in any dictionary. */
  function Merged(revoked: map<Text, Revocation>, more: seq<Revocation>): map<Text, Revocation> {
    if more == [] then revoked else Merged(revoked, more[..|more| - 1])[more[|more| - 1].certId := more[|more| - 1]]
  }

  lemma {:induction false} MergedKeys(revoked: map<Text, Revocation>, more: seq<Revocation>, id: Text)
    ensures id in Merged(revoked, more) <==> id in revoked || exists i :: 0 <= i < |more| && more[i].certId == id
  {
    if more != [] {
      var front := more[..|more| - 1];
      MergedKeys(revoked, front, id);
      if i :| 0 <= i < |front| && front[i].certId == id {
        assert more[i].certId == id;
      }
      if i :| 0 <= i < |more| && more[i].certId == id && i < |front| {
        assert front[i].certId == id;
      }
    }
  }

  /** The information kept for an id is that of its last entry, or what was there if the list has none. */
  lemma {:induction false} MergedKeepsLast(revoked: map<Text, Revocation>, more: seq<Revocation>, i: nat)
    requires i < |more| && forall j | i < j < |more| :: more[j].certId != more[i].certId
    ensures more[i].certId in Merged(revoked, more) && Merged(revoked, more)[more[i].certId] == more[i]
  {
    if i < |more| - 1 {
      MergedKeepsLast(revoked, more[..|more| - 1], i);
    }
  }

  lemma {:induction false} MergedKeepsOthers(revoked: map<Text, Revocation>, more: seq<Revocation>, id: Text)
    requires id in revoked && forall j | 0 <= j < |more| :: more[j].certId != id
    ensures id in Merged(revoked, more) && Merged(revoked, more)[id] == revoked[id]
  {
    if more != [] {
      MergedKeepsOthers(revoked, more[..|more| - 1], id);
    }
  }

  class TrustStore {
    /** anchor_id to the holder of the anchor's keys */
    var anchors: map<Text, Text>
    var revokedCerts: map<Text, Revocation>

    constructor ()
      ensures anchors == map[] && revokedCerts == map[]
    {
      anchors, revokedCerts := map[], map[];
    }

    method AddCrl(c: Crl, verifySignature: bool) returns (r: Option<TrustError>)
      modifies this`revokedCerts
      ensures r.None? <==> !verifySignature || (c.issuer in anchors && VerifiesUnder(c, anchors[c.issuer]))
      ensures r.Some? ==> revokedCerts == old(revokedCerts)
      ensures r.None? ==> revokedCerts == Merged(old(revokedCerts), c.revoked)
      ensures r.None? ==> forall i | 0 <= i < |c.revoked| :: c.revoked[i].certId in revokedCerts
      ensures old(revokedCerts).Keys <= revokedCerts.Keys
    {
      hide VerifiesUnder;
      if verifySignature && c.issuer !in anchors {
        return Some(Untrusted);
      }
      if verifySignature && !VerifiesUnder(c, anchors[c.issuer]) {
        return Some(BadSignature);
      }
      for k := 0 to |c.revoked|
        invariant revokedCerts == Merged(old(revokedCerts), c.revoked[..k])
      {
        assert c.revoked[..k + 1][..k] == c.revoked[..k];
        revokedCerts := revokedCerts[c.revoked[k].certId := c.revoked[k]];
      }
      assert c.revoked[..|c.revoked|] == c.revoked;
      ghost var before := old(revokedCerts);
      forall id ensures id in revokedCerts <==> id in before || exists i :: 0 <= i < |c.revoked| && c.revoked[i].certId == id {
        MergedKeys(before, c.revoked, id);
      }
      return None;
    }

    method Add(anchorId: Text, keysOf: Text)
      modifies this`anchors
      ensures anchors == old(anchors)[anchorId := keysOf]
    {
      anchors := anchors[anchorId := keysOf];
    }

    method Remove(anchorId: Text)
      modifies this`anchors
      ensures anchors == old(anchors) - {anchorId}
    {
      anchors := anchors - {anchorId};
    }

    method Revoke(v: Revocation)
      modifies this`revokedCerts
      ensures revokedCerts == old(revokedCerts)[v.certId := v]
    {
      revokedCerts := revokedCerts[v.certId := v];
    }

    method Unrevoke(certId: Text)
      modifies this`revokedCerts
      ensures revokedCerts == old(revokedCerts) - {certId}
    {
      revokedCerts := revokedCerts - {certId};
    }

    /** verify: who vouches, is it revoked, is it who was expected, is it time, is it signed. */
    method VerifyCard(k: SignedCard, now: int, expected: Option<Text>) returns (r: Result<CardBody, TrustError>)
      ensures r.Ok? <==>
        && k.issuer in anchors && k.certId !in revokedCerts
        && (expected.None? || k.card.entityId == expected.value) && k.notBefore <= now <= k.notAfter
        && AllShort(FieldsOfCard(k)) && k.sig == Signature(anchors[k.issuer], Encoded(FieldsOfCard(k)))
      ensures r.Ok? ==> r.value == k.card
      ensures k.issuer in anchors && k.certId in revokedCerts ==> r == Err(RevokedCard)
    {
      hide CardFields, Parse, Encoded, AllShort;
      if k.issuer !in anchors {
        return Err(Untrusted);
      }
      if k.certId in revokedCerts {
        return Err(RevokedCard);
      }
      if expected.Some? && k.card.entityId != expected.value {
        return Err(WrongEntity);
      }
      if now < k.notBefore {
        return Err(NotYetValid);
      }
      if now > k.notAfter {
        return Err(Outdated);
      }
      var signable := Bind(FieldsOfCard(k));
      if signable.None? {
        return Err(EncodingError);
      }
      if k.sig != Signature(anchors[k.issuer], signable.value) {
        return Err(BadSignature);
      }
      return Ok(k.card);
    }
  }

  datatype StoreCall =
    | CallAdd(anchorId: Text, keysOf: Text) | CallRemove(anchorId: Text)
    | CallAddCrl(c: Crl, verifySignature: bool) | CallRevoke(v: Revocation) | CallUnrevoke(certId: Text)

  /** Once revoked, a certificate is refused after any calls but an unrevoke of it, added and removed anchors included. */
  method RefusedUntilUnrevoked(store: TrustStore, certId: Text, calls: seq<StoreCall>, k: SignedCard, now: int, expected: Option<Text>)
    returns (r: Result<CardBody, TrustError>)
    requires certId in store.revokedCerts && k.certId == certId
    requires CallUnrevoke(certId) !in calls
    modifies store
    ensures r.Err? && certId in store.revokedCerts
  {
    for i := 0 to |calls|
      invariant certId in store.revokedCerts
    {
      match calls[i] {
        case CallAdd(anchorId, keysOf) => store.Add(anchorId, keysOf);
        case CallRemove(anchorId) => store.Remove(anchorId);
        case CallAddCrl(c, verifySignature) => var _ := store.AddCrl(c, verifySignature);
        case CallRevoke(v) => store.Revoke(v);
        case CallUnrevoke(other) =>
          assert calls[i] in calls;
          store.Unrevoke(other);
      }
    }
    r := store.VerifyCard(k, now, expected);
  }
}
