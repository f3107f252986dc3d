// Migration 109: the identity index built from subscribers, their contacts and
// their channels, and its agreement with a full scan of these tables.

module IdentityIndex {
  import opened Basics
  import opened Identity
  import T = Text

  type Id = int

  datatype Subscriber = Subscriber(id: Id, email: Option<string>, phone: Option<string>)

  datatype Contact = Contact(
    id: Id, subscriberId: Id, email: Option<string>, phone: Option<string>, whatsapp: Option<string>)

  datatype Channel = Channel(
    id: Id, subscriberId: Id, channelType: Option<string>, address: Option<string>)

  datatype IdentityType = Email | Phone

  datatype SourceTable = Subscribers | SubscriberContacts | SubscriberChannels

  // A row of the index, without its random id and its timestamps.
  datatype Row = Row(
    identityType: IdentityType,
    value: string,
    subscriberId: Id,
    contactId: Option<Id>,
    channelId: Option<Id>,
    table: SourceTable,
    field: string)

  datatype Tables = Tables(
    subscribers: seq<Subscriber>, contacts: seq<Contact>, channels: seq<Channel>)

  // ---------------------------------------------------------- the sources

  function RowIf(t: IdentityType, value: Option<string>, subscriberId: Id, contactId: Option<Id>,
                 channelId: Option<Id>, table: SourceTable, field: string): seq<Row> {
    if value.None? || value.value == "" then []
    else [Row(t, value.value, subscriberId, contactId, channelId, table, field)]
  }

  // The normalisers in use. What follows holds for any; the migration's own
  // are in Identity.
  datatype Normalizer = Normalizer(
    email: Option<string> -> Option<string>,
    phone: Option<string> -> Option<string>,
    kind: Option<string> -> string)

  function ChannelKind(channelType: Option<string>): string { Lower(Strip(OrEmpty(channelType))) }

  function Standard(): Normalizer { Normalizer(NormalizeEmail, NormalizePhone, ChannelKind) }

  function SubscriberRows(n: Normalizer, s: Subscriber): seq<Row> {
    RowIf(Email, n.email(s.email), s.id, None, None, Subscribers, "email")
    + RowIf(Phone, n.phone(s.phone), s.id, None, None, Subscribers, "phone")
  }

  function ContactRows(n: Normalizer, c: Contact): seq<Row> {
    RowIf(Email, n.email(c.email), c.subscriberId, Some(c.id), None, SubscriberContacts, "email")
    + RowIf(Phone, n.phone(c.phone), c.subscriberId, Some(c.id), None, SubscriberContacts, "phone")
    + RowIf(Phone, n.phone(c.whatsapp), c.subscriberId, Some(c.id), None,
            SubscriberContacts, "whatsapp")
  }

  function ChannelRows(n: Normalizer, ch: Channel): seq<Row> {
    var kind := n.kind(ch.channelType);
    RowIf(if kind == "email" then Email else Phone,
          if kind == "email" then n.email(ch.address) else n.phone(ch.address),
          ch.subscriberId, None, Some(ch.id), SubscriberChannels,
          if kind == "" then "address" else kind)
  }

  // A row that some source yields.
  ghost predicate IsSourceRow(n: Normalizer, t: Tables, r: Row) {
    || (exists s :: s in t.subscribers && r in SubscriberRows(n, s))
    || (exists c :: c in t.contacts && r in ContactRows(n, c))
    || (exists ch :: ch in t.channels && r in ChannelRows(n, ch))
  }

  // ---------------------------------------------------------- the build

  function Owned<T>(owner: T -> Id, rows: seq<T>, id: Id): seq<T> {
    if rows == [] then []
    else
      Owned(owner, rows[..|rows| - 1], id)
      + if owner(rows[|rows| - 1]) == id then [rows[|rows| - 1]] else []
  }

  function Lookup<T>(groups: map<Id, seq<T>>, id: Id): seq<T> {
    if id in groups then groups[id] else []
  }

  // setdefault(...).append(...) over all rows of a table
  method GroupBy<T>(owner: T -> Id, rows: seq<T>) returns (groups: map<Id, seq<T>>)
    ensures forall id :: Lookup(groups, id) == Owned(owner, rows, id)
  {
    groups := map[];
    for i := 0 to |rows|
      invariant forall id :: Lookup(groups, id) == Owned(owner, rows[..i], id)
    {
      assert rows[..i + 1][..i] == rows[..i];
      var id := owner(rows[i]);
      groups := groups[id := Lookup(groups, id) + [rows[i]]];
    }
    assert rows[..|rows|] == rows;
  }

  function OwnerOfContact(c: Contact): Id { c.subscriberId }

  function OwnerOfChannel(ch: Channel): Id { ch.subscriberId }

  function AllContactRows(n: Normalizer, cs: seq<Contact>): seq<Row> {
    if cs == [] then [] else AllContactRows(n, cs[..|cs| - 1]) + ContactRows(n, cs[|cs| - 1])
  }

  function AllChannelRows(n: Normalizer, chs: seq<Channel>): seq<Row> {
    if chs == [] then [] else AllChannelRows(n, chs[..|chs| - 1]) + ChannelRows(n, chs[|chs| - 1])
  }

  function RowsOf(n: Normalizer, t: Tables, s: Subscriber): seq<Row> {
    SubscriberRows(n, s)
    + AllContactRows(n, Owned(OwnerOfContact, t.contacts, s.id))
    + AllChannelRows(n, Owned(OwnerOfChannel, t.channels, s.id))
  }

  // Every row that is handed to _append_row for the subscribers, in order.
  function Offered(n: Normalizer, t: Tables, ss: seq<Subscriber>): seq<Row> {
    if ss == [] then [] else Offered(n, t, ss[..|ss| - 1]) + RowsOf(n, t, ss[|ss| - 1])
  }

  function Index(n: Normalizer, t: Tables): seq<Row> {
    Deduped(Offered(n, t, t.subscribers))
  }

  // The dedupe key: type, value, table, field and the source's own id.
  type DedupeKey = (IdentityType, string, SourceTable, string, Id)

  function KeyOf(r: Row): DedupeKey {
    (r.identityType, r.value, r.table, r.field,
     if r.contactId.Some? then r.contactId.value
     else if r.channelId.Some? then r.channelId.value else r.subscriberId)
  }

  function Keys(rows: seq<Row>): set<DedupeKey> {
    set r | r in rows :: KeyOf(r)
  }

  // The first offered row of every key.
  function Deduped(offered: seq<Row>): seq<Row> {
    if offered == [] then []
    else
      var kept, r := Deduped(offered[..|offered| - 1]), offered[|offered| - 1];
      if KeyOf(r) in Keys(kept) then kept else kept + [r]
  }

  class Builder {
    var seen: set<DedupeKey>
    var rows: seq<Row>
    ghost var offered: seq<Row>

    ghost predicate Valid()
      reads this
    {
      rows == Deduped(offered) && seen == Keys(rows)
    }

    constructor ()
      ensures Valid() && offered == []
    {
      seen, rows, offered := {}, [], [];
    }

    method AppendRow(t: IdentityType, value: Option<string>, subscriberId: Id,
                     contactId: Option<Id>, channelId: Option<Id>, table: SourceTable, field: string)
      requires Valid()
      modifies this
      ensures Valid()
      ensures offered == old(offered)
                         + RowIf(t, value, subscriberId, contactId, channelId, table, field)
    {
      if value.None? || value.value == "" { return; }
      var row := Row(t, value.value, subscriberId, contactId, channelId, table, field);
      var key := KeyOf(row);
      DedupStep(offered, row);
      KeysAppend(rows, row);
      offered := offered + [row];
      if key in seen { return; }
      seen := seen + {key};
      rows := rows + [row];
    }

    method AppendContact(n: Normalizer, c: Contact)
      requires Valid()
      modifies this
      ensures Valid() && offered == old(offered) + ContactRows(n, c)
    {
      AppendRow(Email, n.email(c.email), c.subscriberId, Some(c.id), None, SubscriberContacts, "email");
      AppendRow(Phone, n.phone(c.phone), c.subscriberId, Some(c.id), None, SubscriberContacts, "phone");
      AppendRow(Phone, n.phone(c.whatsapp), c.subscriberId, Some(c.id), None,
                SubscriberContacts, "whatsapp");
    }

    method AppendChannel(n: Normalizer, ch: Channel)
      requires Valid()
      modifies this
      ensures Valid() && offered == old(offered) + ChannelRows(n, ch)
    {
      var kind := n.kind(ch.channelType);
      var t := if kind == "email" then Email else Phone;
      var value := if t.Email? then n.email(ch.address) else n.phone(ch.address);
      AppendRow(t, value, ch.subscriberId, None, Some(ch.id), SubscriberChannels,
                if kind == "" then "address" else kind);
    }

    method AppendContacts(n: Normalizer, contacts: seq<Contact>)
      requires Valid()
      modifies this
      ensures Valid() && offered == old(offered) + AllContactRows(n, contacts)
    {
      for i := 0 to |contacts|
        invariant Valid() && offered == old(offered) + AllContactRows(n, contacts[..i])
      {
        assert contacts[..i + 1][..i] == contacts[..i];
        AppendContact(n, contacts[i]);
      }
      assert contacts[..|contacts|] == contacts;
    }

    method AppendChannels(n: Normalizer, channels: seq<Channel>)
      requires Valid()
      modifies this
      ensures Valid() && offered == old(offered) + AllChannelRows(n, channels)
    {
      for i := 0 to |channels|
        invariant Valid() && offered == old(offered) + AllChannelRows(n, channels[..i])
      {
        assert channels[..i + 1][..i] == channels[..i];
        AppendChannel(n, channels[i]);
      }
      assert channels[..|channels|] == channels;
    }

    method AppendSubscriber(n: Normalizer, s: Subscriber)
      requires Valid()
      modifies this
      ensures Valid() && offered == old(offered) + SubscriberRows(n, s)
    {
      AppendRow(Email, n.email(s.email), s.id, None, None, Subscribers, "email");
      AppendRow(Phone, n.phone(s.phone), s.id, None, None, Subscribers, "phone");
    }

    // One turn of the outer loop.
    method AppendFamily(n: Normalizer, ghost t: Tables, s: Subscriber,
                        contacts: seq<Contact>, channels: seq<Channel>)
      requires Valid()
      requires contacts == Owned(OwnerOfContact, t.contacts, s.id)
      requires channels == Owned(OwnerOfChannel, t.channels, s.id)
      modifies this
      ensures Valid() && offered == old(offered) + RowsOf(n, t, s)
    {
      ConcatAssociates(offered, SubscriberRows(n, s), AllContactRows(n, contacts),
                       AllChannelRows(n, channels));
      AppendSubscriber(n, s);
      AppendContacts(n, contacts);
      AppendChannels(n, channels);
    }
  }

  lemma DedupStep(offered: seq<Row>, r: Row)
    ensures Deduped(offered + [r]) ==
            if KeyOf(r) in Keys(Deduped(offered)) then Deduped(offered) else Deduped(offered) + [r]
  {
    assert (offered + [r])[..|offered|] == offered;
  }

  lemma OfferedStep(n: Normalizer, t: Tables, ss: seq<Subscriber>, i: nat)
    requires i < |ss|
    ensures Offered(n, t, ss[..i + 1]) == Offered(n, t, ss[..i]) + RowsOf(n, t, ss[i])
  {
    assert ss[..i + 1][..i] == ss[..i];
  }

  lemma ConcatAssociates(a: seq<Row>, b: seq<Row>, c: seq<Row>, d: seq<Row>)
    ensures a + b + c + d == a + (b + c + d)
  {
  }

  // The index build of upgrade.
  method BuildIndex(n: Normalizer, t: Tables) returns (rows: seq<Row>)
    ensures rows == Index(n, t)
  {
    var contactsBySubscriber := GroupBy(OwnerOfContact, t.contacts);
    var channelsBySubscriber := GroupBy(OwnerOfChannel, t.channels);
    var builder := new Builder();
    var subscribers := t.subscribers;
    for i := 0 to |subscribers|
      invariant builder.Valid() && builder.offered == Offered(n, t, subscribers[..i])
    {
      var s := subscribers[i];
      OfferedStep(n, t, subscribers, i);
      builder.AppendFamily(n, t, s, Lookup(contactsBySubscriber, s.id),
                           Lookup(channelsBySubscriber, s.id));
    }
    assert subscribers[..|subscribers|] == subscribers;
    rows := builder.rows;
  }

  // ---------------------------------------------------------- exactness

  // Primary keys are unique and no contact or channel is an orphan.
  ghost predicate IsConsistent(t: Tables) {
    && (forall a, b :: a in t.subscribers && b in t.subscribers && a.id == b.id ==> a == b)
    && (forall a, b :: a in t.contacts && b in t.contacts && a.id == b.id ==> a == b)
    && (forall a, b :: a in t.channels && b in t.channels && a.id == b.id ==> a == b)
    && (forall c :: c in t.contacts ==> HasSubscriber(t, c.subscriberId))
    && (forall ch :: ch in t.channels ==> HasSubscriber(t, ch.subscriberId))
  }

  ghost predicate HasSubscriber(t: Tables, id: Id) {
    exists s :: s in t.subscribers && s.id == id
  }

  lemma {:induction false} OwnedMembers<T>(owner: T -> Id, rows: seq<T>, id: Id)
    ensures forall x :: x in Owned(owner, rows, id) <==> x in rows && owner(x) == id
  {
    if rows != [] {
      OwnedMembers(owner, rows[..|rows| - 1], id);
      assert rows == rows[..|rows| - 1] + [rows[|rows| - 1]];
    }
  }

  lemma {:induction false} ContactRowsMembers(n: Normalizer, cs: seq<Contact>, r: Row)
    ensures r in AllContactRows(n, cs) <==> exists c :: c in cs && r in ContactRows(n, c)
  {
    if cs != [] {
      var front, last := cs[..|cs| - 1], cs[|cs| - 1];
      ContactRowsMembers(n, front, r);
      assert cs == front + [last];
      assert forall c :: c in cs <==> c in front || c == last;
    }
  }

  lemma {:induction false} ChannelRowsMembers(n: Normalizer, chs: seq<Channel>, r: Row)
    ensures r in AllChannelRows(n, chs) <==> exists ch :: ch in chs && r in ChannelRows(n, ch)
  {
    if chs != [] {
      var front, last := chs[..|chs| - 1], chs[|chs| - 1];
      ChannelRowsMembers(n, front, r);
      assert chs == front + [last];
      assert forall ch :: ch in chs <==> ch in front || ch == last;
    }
  }

  // A row that the subscriber, one of its contacts or its channels yields.
  ghost predicate IsRowOf(n: Normalizer, t: Tables, s: Subscriber, r: Row) {
    || r in SubscriberRows(n, s)
    || (exists c :: c in t.contacts && c.subscriberId == s.id && r in ContactRows(n, c))
    || (exists ch :: ch in t.channels && ch.subscriberId == s.id && r in ChannelRows(n, ch))
  }

  lemma RowsOfMembers(n: Normalizer, t: Tables, s: Subscriber, r: Row)
    ensures r in RowsOf(n, t, s) <==> IsRowOf(n, t, s, r)
  {
    OwnedMembers(OwnerOfContact, t.contacts, s.id);
    OwnedMembers(OwnerOfChannel, t.channels, s.id);
    ContactRowsMembers(n, Owned(OwnerOfContact, t.contacts, s.id), r);
    ChannelRowsMembers(n, Owned(OwnerOfChannel, t.channels, s.id), r);
  }

  lemma {:induction false} OfferedMembers(n: Normalizer, t: Tables, ss: seq<Subscriber>, r: Row)
    ensures r in Offered(n, t, ss) <==> exists s :: s in ss && IsRowOf(n, t, s, r)
  {
    if ss != [] {
      var front, last := ss[..|ss| - 1], ss[|ss| - 1];
      OfferedMembers(n, t, front, r);
      RowsOfMembers(n, t, last, r);
      assert ss == front + [last];
      assert forall s :: s in ss <==> s in front || s == last;
    }
  }

  // Without orphans, what is offered is what the sources yield.
  lemma OfferedAreSourceRows(n: Normalizer, t: Tables, r: Row)
    requires IsConsistent(t)
    ensures r in Offered(n, t, t.subscribers) <==> IsSourceRow(n, t, r)
  {
    OfferedMembers(n, t, t.subscribers, r);
    if c :| c in t.contacts && r in ContactRows(n, c) {
      var s :| s in t.subscribers && s.id == c.subscriberId;
      assert IsRowOf(n, t, s, r);
    }
    if ch :| ch in t.channels && r in ChannelRows(n, ch) {
      var s :| s in t.subscribers && s.id == ch.subscriberId;
      assert IsRowOf(n, t, s, r);
    }
    if s :| s in t.subscribers && r in SubscriberRows(n, s) {
      assert IsRowOf(n, t, s, r);
    }
  }

  // Deduplication keeps offered rows only, one for every key.
  lemma {:induction false} DedupedMeaning(offered: seq<Row>)
    ensures forall r :: r in Deduped(offered) ==> r in offered
    ensures Keys(Deduped(offered)) == Keys(offered)
    ensures NoDuplicates(Deduped(offered))
  {
    if offered != [] {
      var front, last := offered[..|offered| - 1], offered[|offered| - 1];
      DedupedMeaning(front);
      assert offered == front + [last];
      KeysAppend(front, last);
      KeysAppend(Deduped(front), last);
    }
  }

  // Grouping keeps the owner's rows in table order.
  lemma {:induction false} OwnedExactly<T(!new)>(owner: T -> Id, rows: seq<T>, id: Id)
    returns (places: seq<nat>)
    ensures IsFilter(rows, Owned(owner, rows, id), places, OwnedBy(owner, rows, id))
  {
    places := [];
    if rows != [] {
      var front, last := rows[..|rows| - 1], rows[|rows| - 1];
      places := OwnedExactly(owner, front, id);
      FilterStep(front, Owned(owner, front, id), places, OwnedBy(owner, front, id), last,
                 OwnedBy(owner, rows, id));
      assert rows == front + [last];
      if owner(last) == id { places := places + [|front|]; }
    }
  }

  function OwnedBy<T>(owner: T -> Id, rows: seq<T>, id: Id): nat -> bool {
    (i: nat) => i < |rows| && owner(rows[i]) == id
  }

  // A row is kept exactly if no earlier offered row has its key, and the kept
  // rows stay in order.
  lemma {:induction false} DedupedExactly(offered: seq<Row>) returns (places: seq<nat>)
    ensures IsFilter(offered, Deduped(offered), places, FirstOfKey(offered))
  {
    places := [];
    if offered != [] {
      var front, last := offered[..|offered| - 1], offered[|offered| - 1];
      places := DedupedExactly(front);
      LastIsFirstOfKey(front, last);
      assert offered == front + [last];
      FilterStep(front, Deduped(front), places, FirstOfKey(front), last, FirstOfKey(offered));
      if FirstOfKey(offered)(|front|) { places := places + [|front|]; }
    }
  }

  ghost function FirstOfKey(offered: seq<Row>): nat -> bool {
    (i: nat) => IsFirstOfKey(offered, i)
  }

  lemma LastIsFirstOfKey(front: seq<Row>, last: Row)
    ensures IsFirstOfKey(front + [last], |front|) <==> KeyOf(last) !in Keys(Deduped(front))
    ensures forall i: nat :: i < |front| ==>
              IsFirstOfKey(front, i) == IsFirstOfKey(front + [last], i)
  {
    DedupedMeaning(front);
    var offered := front + [last];
    assert forall i :: 0 <= i < |front| ==> front[i] == offered[i];
    assert forall r :: r in front ==> KeyOf(r) in Keys(front);
    if KeyOf(last) in Keys(front) {
      var r :| r in front && KeyOf(r) == KeyOf(last);
      var j :| 0 <= j < |front| && front[j] == r;
      assert KeyOf(offered[j]) == KeyOf(offered[|front|]);
    } else {
      forall j | 0 <= j < |front| ensures KeyOf(offered[j]) != KeyOf(offered[|front|]) {
        assert front[j] in front;
      }
    }
  }

  ghost predicate IsFirstOfKey(offered: seq<Row>, i: nat) {
    i < |offered| && forall j :: 0 <= j < i ==> KeyOf(offered[j]) != KeyOf(offered[i])
  }

  lemma KeysAppend(rows: seq<Row>, r: Row)
    ensures Keys(rows + [r]) == Keys(rows) + {KeyOf(r)}
    ensures NoDuplicates(rows) && KeyOf(r) !in Keys(rows) ==> NoDuplicates(rows + [r])
  {
    assert forall x :: x in rows + [r] <==> x in rows || x == r;
    if KeyOf(r) !in Keys(rows) { assert r !in rows; }
  }

  // The source that a row names, beside its own fields.
  ghost predicate NamesItsSource(t: Tables, r: Row) {
    match r.table
    case Subscribers =>
      r.contactId == None && r.channelId == None
    case SubscriberContacts =>
      r.channelId == None && exists c :: c in t.contacts && r.contactId == Some(c.id)
                                         && r.subscriberId == c.subscriberId
    case SubscriberChannels =>
      r.contactId == None && exists ch :: ch in t.channels && r.channelId == Some(ch.id)
                                          && r.subscriberId == ch.subscriberId
  }

  lemma SourceRowNamesSource(n: Normalizer, t: Tables, r: Row)
    requires IsSourceRow(n, t, r)
    ensures NamesItsSource(t, r)
  {
  }

  // With unique ids, a source's row is recognised by its dedupe key.
  lemma KeyDetermines(n: Normalizer, t: Tables, a: Row, b: Row)
    requires IsConsistent(t) && IsSourceRow(n, t, a) && IsSourceRow(n, t, b)
    requires KeyOf(a) == KeyOf(b)
    ensures a == b
  {
    SourceRowNamesSource(n, t, a);
    SourceRowNamesSource(n, t, b);
    NamedSourceDetermines(t, a, b);
  }

  lemma NamedSourceDetermines(t: Tables, a: Row, b: Row)
    requires IsConsistent(t) && NamesItsSource(t, a) && NamesItsSource(t, b)
    requires KeyOf(a) == KeyOf(b)
    ensures a == b
  {
  }

  // The index holds exactly one row for every source whose value normalises to
  // something, and no other row.
  lemma IndexIsExact(n: Normalizer, t: Tables, r: Row)
    requires IsConsistent(t)
    ensures r in Index(n, t) <==> IsSourceRow(n, t, r)
    ensures NoDuplicates(Index(n, t))
  {
    var offered := Offered(n, t, t.subscribers);
    DedupedMeaning(offered);
    OfferedAreSourceRows(n, t, r);
    if IsSourceRow(n, t, r) {
      assert KeyOf(r) in Keys(Index(n, t));
      var x :| x in Index(n, t) && KeyOf(x) == KeyOf(r);
      OfferedAreSourceRows(n, t, x);
      KeyDetermines(n, t, x, r);
    }
  }

  // A row on the fields of the source it stands for.
  ghost predicate IsSubscriberRow(n: Normalizer, t: Tables, r: Row) {
    exists s :: s in t.subscribers && r.subscriberId == s.id
      && r.table == Subscribers && r.contactId == None && r.channelId == None
      && (|| (r.identityType == Email && r.field == "email" && n.email(s.email) == Some(r.value))
          || (r.identityType == Phone && r.field == "phone" && n.phone(s.phone) == Some(r.value)))
  }

  ghost predicate IsContactRow(n: Normalizer, t: Tables, r: Row) {
    exists c :: c in t.contacts && r.subscriberId == c.subscriberId
      && r.table == SubscriberContacts && r.contactId == Some(c.id) && r.channelId == None
      && (|| (r.identityType == Email && r.field == "email" && n.email(c.email) == Some(r.value))
          || (r.identityType == Phone && r.field == "phone" && n.phone(c.phone) == Some(r.value))
          || (r.identityType == Phone && r.field == "whatsapp"
              && n.phone(c.whatsapp) == Some(r.value)))
  }

  ghost predicate IsChannelRow(n: Normalizer, t: Tables, r: Row) {
    exists ch :: ch in t.channels && r.subscriberId == ch.subscriberId
      && r.table == SubscriberChannels && r.contactId == None && r.channelId == Some(ch.id)
      && r.field == (if n.kind(ch.channelType) == "" then "address" else n.kind(ch.channelType))
      && (|| (r.identityType == Email && n.kind(ch.channelType) == "email"
              && n.email(ch.address) == Some(r.value))
          || (r.identityType == Phone && n.kind(ch.channelType) != "email"
              && n.phone(ch.address) == Some(r.value)))
  }

  // The index, row by row: type, value, owner, source and field of every row
  // are those of a source field that normalises to a non-empty value, and each
  // such field has its row.
  lemma RowsExactly(n: Normalizer, t: Tables, r: Row)
    requires IsConsistent(t)
    ensures r in Index(n, t) <==>
            r.value != "" && (IsSubscriberRow(n, t, r) || IsContactRow(n, t, r) || IsChannelRow(n, t, r))
  {
    IndexIsExact(n, t, r);
    SubscriberRowsExactly(n, t, r);
    ContactRowsExactly(n, t, r);
    ChannelRowsExactly(n, t, r);
  }

  lemma SubscriberRowsExactly(n: Normalizer, t: Tables, r: Row)
    ensures (exists s :: s in t.subscribers && r in SubscriberRows(n, s)) <==>
            r.value != "" && IsSubscriberRow(n, t, r)
  {
  }

  lemma ContactRowsExactly(n: Normalizer, t: Tables, r: Row)
    ensures (exists c :: c in t.contacts && r in ContactRows(n, c)) <==>
            r.value != "" && IsContactRow(n, t, r)
  {
  }

  lemma ChannelRowsExactly(n: Normalizer, t: Tables, r: Row)
    ensures (exists ch :: ch in t.channels && r in ChannelRows(n, ch)) <==>
            r.value != "" && IsChannelRow(n, t, r)
  {
  }

  // The channel kind the migration compares: without blanks, in small letters.
  lemma StandardKindExactly(channelType: Option<string>) returns (trimmed: string)
    ensures T.IsTrimmed(if channelType.Some? then channelType.value else "", trimmed, T.IsSpace)
    ensures IsLowered(trimmed, Standard().kind(channelType))
    ensures forall v :: Standard().email(v) == NormalizeEmail(v)
    ensures forall v :: Standard().phone(v) == NormalizePhone(v)
  {
    StripExactly(OrEmpty(channelType));
    trimmed := Strip(OrEmpty(channelType));
  }

  // ---------------------------------------------------------- lookup

  ghost predicate Finds(rows: seq<Row>, kind: IdentityType, value: string, id: Id) {
    exists r :: r in rows && IsHit(r, kind, value, id)
  }

  predicate IsHit(r: Row, kind: IdentityType, value: string, id: Id) {
    r.identityType == kind && r.value == value && r.subscriberId == id
  }

  // The reference: does any field of the subscriber, its contacts or its
  // channels normalise to the value?
  ghost predicate ScanFinds(n: Normalizer, t: Tables, kind: IdentityType, value: string, id: Id) {
    || (exists s :: s in t.subscribers && s.id == id && SubscriberHolds(n, s, kind, value))
    || (exists c :: c in t.contacts && c.subscriberId == id && ContactHolds(n, c, kind, value))
    || (exists ch :: ch in t.channels && ch.subscriberId == id && ChannelHolds(n, ch, kind, value))
  }

  predicate SubscriberHolds(n: Normalizer, s: Subscriber, kind: IdentityType, value: string) {
    match kind
    case Email => n.email(s.email) == Some(value)
    case Phone => n.phone(s.phone) == Some(value)
  }

  predicate ContactHolds(n: Normalizer, c: Contact, kind: IdentityType, value: string) {
    match kind
    case Email => n.email(c.email) == Some(value)
    case Phone => n.phone(c.phone) == Some(value) || n.phone(c.whatsapp) == Some(value)
  }

  predicate ChannelHolds(n: Normalizer, ch: Channel, kind: IdentityType, value: string) {
    match kind
    case Email => n.kind(ch.channelType) == "email" && n.email(ch.address) == Some(value)
    case Phone => n.kind(ch.channelType) != "email" && n.phone(ch.address) == Some(value)
  }

  lemma SubscriberRowsHold(n: Normalizer, s: Subscriber, kind: IdentityType, value: string)
    requires value != ""
    ensures (exists r :: r in SubscriberRows(n, s) && IsHit(r, kind, value, s.id)) <==>
            SubscriberHolds(n, s, kind, value)
  {
    var r := Row(kind, value, s.id, None, None, Subscribers, if kind.Email? then "email" else "phone");
    assert SubscriberHolds(n, s, kind, value) ==> r in SubscriberRows(n, s);
    assert IsHit(r, kind, value, s.id);
  }

  lemma ContactRowsHold(n: Normalizer, c: Contact, kind: IdentityType, value: string)
    requires value != ""
    ensures (exists r :: r in ContactRows(n, c) && IsHit(r, kind, value, c.subscriberId)) <==>
            ContactHolds(n, c, kind, value)
  {
    var r := Row(kind, value, c.subscriberId, Some(c.id), None, SubscriberContacts,
                 if kind.Email? then "email"
                 else if n.phone(c.phone) == Some(value) then "phone" else "whatsapp");
    assert ContactHolds(n, c, kind, value) ==> r in ContactRows(n, c);
    assert IsHit(r, kind, value, c.subscriberId);
  }

  lemma ChannelRowsHold(n: Normalizer, ch: Channel, kind: IdentityType, value: string)
    requires value != ""
    ensures (exists r :: r in ChannelRows(n, ch) && IsHit(r, kind, value, ch.subscriberId)) <==>
            ChannelHolds(n, ch, kind, value)
  {
    var k := n.kind(ch.channelType);
    var r := Row(kind, value, ch.subscriberId, None, Some(ch.id), SubscriberChannels,
                 if k == "" then "address" else k);
    assert ChannelHolds(n, ch, kind, value) ==> r in ChannelRows(n, ch);
    assert IsHit(r, kind, value, ch.subscriberId);
  }

  // A lookup in the index agrees with a full scan of the three tables.
  lemma LookupAgreesWithScan(n: Normalizer, t: Tables, kind: IdentityType, value: string, id: Id)
    requires IsConsistent(t) && value != ""
    ensures Finds(Index(n, t), kind, value, id) <==> ScanFinds(n, t, kind, value, id)
  {
    var rows := Index(n, t);
    if r :| r in rows && IsHit(r, kind, value, id) {
      IndexIsExact(n, t, r);
      HitIsScanned(n, t, r, kind, value, id);
    }
    if ScanFinds(n, t, kind, value, id) {
      var r := ScannedRow(n, t, kind, value, id);
      IndexIsExact(n, t, r);
    }
  }

  lemma HitIsScanned(n: Normalizer, t: Tables, r: Row, kind: IdentityType, value: string, id: Id)
    requires IsSourceRow(n, t, r) && IsHit(r, kind, value, id) && value != ""
    ensures ScanFinds(n, t, kind, value, id)
  {
    if s :| s in t.subscribers && r in SubscriberRows(n, s) {
      SubscriberRowsHold(n, s, kind, value);
    } else if c :| c in t.contacts && r in ContactRows(n, c) {
      ContactRowsHold(n, c, kind, value);
    } else {
      var ch :| ch in t.channels && r in ChannelRows(n, ch);
      ChannelRowsHold(n, ch, kind, value);
    }
  }

  lemma ScannedRow(n: Normalizer, t: Tables, kind: IdentityType, value: string, id: Id)
    returns (r: Row)
    requires ScanFinds(n, t, kind, value, id) && value != ""
    ensures IsSourceRow(n, t, r) && IsHit(r, kind, value, id)
  {
    if s :| s in t.subscribers && s.id == id && SubscriberHolds(n, s, kind, value) {
      SubscriberRowsHold(n, s, kind, value);
      r :| r in SubscriberRows(n, s) && IsHit(r, kind, value, id);
    } else if c :| c in t.contacts && c.subscriberId == id && ContactHolds(n, c, kind, value) {
      ContactRowsHold(n, c, kind, value);
      r :| r in ContactRows(n, c) && IsHit(r, kind, value, id);
    } else {
      var ch :| ch in t.channels && ch.subscriberId == id && ChannelHolds(n, ch, kind, value);
      ChannelRowsHold(n, ch, kind, value);
      r :| r in ChannelRows(n, ch) && IsHit(r, kind, value, id);
    }
  }

  ghost predicate NeverEmpty(n: Normalizer) {
    forall v :: n.phone(v) != Some("") && n.email(v) != Some("")
  }

  // Normalisers that never yield an empty value need no condition on the
  // value that is looked up; the migration's own are of this kind.
  lemma EveryLookupAgrees(n: Normalizer, t: Tables, kind: IdentityType, value: string, id: Id)
    requires IsConsistent(t) && NeverEmpty(n)
    ensures Finds(Index(n, t), kind, value, id) <==> ScanFinds(n, t, kind, value, id)
  {
    if value != "" {
      LookupAgreesWithScan(n, t, kind, value, id);
    } else {
      NoEmptyRow(n, t, kind, id);
      NoEmptyScan(n, t, kind, id);
    }
  }

  lemma NoEmptyRow(n: Normalizer, t: Tables, kind: IdentityType, id: Id)
    requires IsConsistent(t)
    ensures !Finds(Index(n, t), kind, "", id)
  {
    forall r | r in Index(n, t) ensures r.value != "" {
      IndexIsExact(n, t, r);
      SourceRowHasValue(n, t, r);
    }
  }

  lemma SourceRowHasValue(n: Normalizer, t: Tables, r: Row)
    requires IsSourceRow(n, t, r)
    ensures r.value != ""
  {
  }

  lemma NoEmptyScan(n: Normalizer, t: Tables, kind: IdentityType, id: Id)
    requires NeverEmpty(n)
    ensures !ScanFinds(n, t, kind, "", id)
  {
  }

  lemma StandardNeverEmpty()
    ensures NeverEmpty(Standard())
  {
    forall v ensures NormalizePhone(v) != Some("") && NormalizeEmail(v) != Some("") {
      PhoneShape(v);
    }
  }
}
