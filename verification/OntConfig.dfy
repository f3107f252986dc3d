// Migrations 084 and 085: an ONT's desired configuration is filled up from its
// active assignment and then from the legacy columns of the unit.

module OntConfig {
  import opened Basics
  import T = Text

  // ---------------------------------------------------------- jsonb

  datatype Jsonb =
    | JNull
    | JBool(b: bool)
    | JText(s: string)
    | JNumber(n: real)
    | JArray(items: seq<Jsonb>)
    | JObject(fields: map<string, Jsonb>)

  function AsArray(v: Jsonb): seq<Jsonb> {
    if v.JArray? then v.items else [v]
  }

  // a || b: right wins between objects; anything else is joined as arrays.
  function Concat(a: Jsonb, b: Jsonb): Jsonb {
    if a.JObject? && b.JObject? then JObject(a.fields + b.fields)
    else JArray(AsArray(a) + AsArray(b))
  }

  // ---------------------------------------------------------- tables

  // The top-level keys of desired_config.
  datatype TopKey = Wan | Management | Lan | Wifi | OtherTop(name: string)

  const SECTIONS: set<TopKey> := {Wan, Management, Lan, Wifi}

  type Config = map<TopKey, Jsonb>

  datatype Column =
    | WanMode | IpMode | StaticIp | StaticGateway | StaticSubnet | StaticDns
    | PppoeUsername | PppoePassword
    | MgmtIpMode | MgmtIpAddress | MgmtSubnet | MgmtGateway
    | LanIp | LanSubnet | LanDhcpEnabled | LanDhcpStart | LanDhcpEnd
    | WifiEnabled | WifiSsid | WifiPassword | WifiSecurityMode | WifiChannel

  datatype Scalar = Text(s: string) | Flag(b: bool)

  // Columns that are NULL are not in the map.
  type Columns = map<Column, Scalar>

  type Id = int

  datatype Assignment = Assignment(
    unit: Id, isActive: Option<bool>, updatedAt: Option<int>, createdAt: Option<int>,
    columns: Columns)

  // The unit's own legacy columns carry the names of the assignment's LAN and
  // WiFi columns here: lan_gateway_ip is LanIp, lan_subnet_mask is LanSubnet.
  datatype Unit = Unit(desired: Option<Config>, legacy: Columns)

  datatype Tables = Tables(
    units: map<Id, Unit>,
    assignments: map<Id, Assignment>,
    legacyColumns: set<Column>)

  // ---------------------------------------------------------- source sections

  // BTRIM removes blanks only.
  function TrimLeft(s: string): string {
    if s != "" && s[0] == ' ' then TrimLeft(s[1..]) else s
  }

  function TrimRight(s: string): string {
    if s != "" && s[|s| - 1] == ' ' then TrimRight(s[..|s| - 1]) else s
  }

  // NULLIF(BTRIM(column), '')
  function Trimmed(cols: Columns, c: Column): Option<Jsonb> {
    if c in cols && cols[c].Text? && TrimRight(TrimLeft(cols[c].s)) != ""
    then Some(JText(TrimRight(TrimLeft(cols[c].s)))) else None
  }

  // column::text, or a boolean column
  function Plain(cols: Columns, c: Column): Option<Jsonb> {
    if c !in cols then None
    else Some(match cols[c] case Text(s) => JText(s) case Flag(b) => JBool(b))
  }

  // jsonb_strip_nulls(jsonb_build_object(...))
  function Entry(key: string, value: Option<Jsonb>): map<string, Jsonb> {
    if value.Some? then map[key := value.value] else map[]
  }

  function Mode(cols: Columns): Option<Jsonb> {
    if Trimmed(cols, PppoeUsername).Some? then Some(JText("pppoe"))
    else if Trimmed(cols, StaticIp).Some? then Some(JText("static_ip"))
    else if Plain(cols, WanMode) == Some(JText("bridging")) then Some(JText("bridge"))
    else Plain(cols, IpMode)
  }

  function SectionOf(cols: Columns, section: TopKey): map<string, Jsonb> {
    match section
    case Wan =>
      Entry("onu_mode", Plain(cols, WanMode)) + Entry("mode", Mode(cols))
      + Entry("static_ip", Trimmed(cols, StaticIp))
      + Entry("static_gateway", Trimmed(cols, StaticGateway))
      + Entry("static_subnet", Trimmed(cols, StaticSubnet))
      + Entry("static_dns", Trimmed(cols, StaticDns))
      + Entry("pppoe_username", Trimmed(cols, PppoeUsername))
      + Entry("pppoe_password", Trimmed(cols, PppoePassword))
    case Management =>
      Entry("ip_mode", Plain(cols, MgmtIpMode)) + Entry("ip_address", Trimmed(cols, MgmtIpAddress))
      + Entry("subnet", Trimmed(cols, MgmtSubnet)) + Entry("gateway", Trimmed(cols, MgmtGateway))
    case Lan => LanSection(cols)
    case Wifi =>
      Entry("enabled", Plain(cols, WifiEnabled)) + Entry("ssid", Trimmed(cols, WifiSsid))
      + Entry("password", Trimmed(cols, WifiPassword))
      + Entry("security_mode", Trimmed(cols, WifiSecurityMode))
      + Entry("channel", Trimmed(cols, WifiChannel))
    case OtherTop(_) => map[]
  }

  function LanSection(cols: Columns): map<string, Jsonb> {
    Entry("ip", Trimmed(cols, LanIp)) + Entry("subnet", Trimmed(cols, LanSubnet))
    + Entry("dhcp_enabled", Plain(cols, LanDhcpEnabled))
    + Entry("dhcp_start", Trimmed(cols, LanDhcpStart)) + Entry("dhcp_end", Trimmed(cols, LanDhcpEnd))
  }

  // One more entry hides what was there under its key, if it has a value.
  lemma EntryLookup(a: map<string, Jsonb>, key: string, value: Option<Jsonb>, k: string)
    ensures From(a + Entry(key, value), k) ==
            if k == key && value.Some? then value else From(a, k)
    ensures From(Entry(key, value), k) == if k == key then value else None
  {
  }

  // Every key of the LAN section reads its own column.
  lemma LanAddressSources(cols: Columns)
    ensures From(LanSection(cols), "ip") == Trimmed(cols, LanIp)
    ensures From(LanSection(cols), "subnet") == Trimmed(cols, LanSubnet)
    ensures From(LanSection(cols), "dhcp_enabled") == Plain(cols, LanDhcpEnabled)
  {
    LanLookup(cols, "ip");
    LanLookup(cols, "subnet");
    LanLookup(cols, "dhcp_enabled");
  }

  lemma LanRangeSources(cols: Columns)
    ensures From(LanSection(cols), "dhcp_start") == Trimmed(cols, LanDhcpStart)
    ensures From(LanSection(cols), "dhcp_end") == Trimmed(cols, LanDhcpEnd)
  {
    LanLookup(cols, "dhcp_start");
    LanLookup(cols, "dhcp_end");
  }

  lemma LanLookup(cols: Columns, k: string)
    ensures From(LanSection(cols), k) ==
            if k == "dhcp_end" then Trimmed(cols, LanDhcpEnd)
            else if k == "dhcp_start" then Trimmed(cols, LanDhcpStart)
            else if k == "dhcp_enabled" then Plain(cols, LanDhcpEnabled)
            else if k == "subnet" then Trimmed(cols, LanSubnet)
            else if k == "ip" then Trimmed(cols, LanIp)
            else None
  {
    FiveEntries("ip", Trimmed(cols, LanIp), "subnet", Trimmed(cols, LanSubnet),
                "dhcp_enabled", Plain(cols, LanDhcpEnabled),
                "dhcp_start", Trimmed(cols, LanDhcpStart), "dhcp_end", Trimmed(cols, LanDhcpEnd), k);
  }

  // Five entries under different keys.
  lemma FiveEntries(ka: string, va: Option<Jsonb>, kb: string, vb: Option<Jsonb>,
                    kc: string, vc: Option<Jsonb>, kd: string, vd: Option<Jsonb>,
                    ke: string, ve: Option<Jsonb>, k: string)
    requires ka !in {kb, kc, kd, ke} && kb !in {kc, kd, ke} && kc !in {kd, ke} && kd != ke
    ensures From(Entry(ka, va) + Entry(kb, vb) + Entry(kc, vc) + Entry(kd, vd) + Entry(ke, ve), k) ==
            if k == ke then ve else if k == kd then vd else if k == kc then vc
            else if k == kb then vb else if k == ka then va else None
  {
    EntryLookup(Entry(ka, va) + Entry(kb, vb) + Entry(kc, vc) + Entry(kd, vd), ke, ve, k);
    EntryLookup(Entry(ka, va) + Entry(kb, vb) + Entry(kc, vc), kd, vd, k);
    EntryLookup(Entry(ka, va) + Entry(kb, vb), kc, vc, k);
    EntryLookup(Entry(ka, va), kb, vb, k);
    EntryLookup(map[], ka, va, k);
  }

  // The same for WiFi.
  lemma WifiSources(cols: Columns, k: string)
    ensures From(SectionOf(cols, Wifi), k) ==
            if k == "channel" then Trimmed(cols, WifiChannel)
            else if k == "security_mode" then Trimmed(cols, WifiSecurityMode)
            else if k == "password" then Trimmed(cols, WifiPassword)
            else if k == "ssid" then Trimmed(cols, WifiSsid)
            else if k == "enabled" then Plain(cols, WifiEnabled)
            else None
  {
    FiveEntries("enabled", Plain(cols, WifiEnabled), "ssid", Trimmed(cols, WifiSsid),
                "password", Trimmed(cols, WifiPassword),
                "security_mode", Trimmed(cols, WifiSecurityMode),
                "channel", Trimmed(cols, WifiChannel), k);
  }

  // And for management.
  lemma ManagementSources(cols: Columns, k: string)
    ensures From(SectionOf(cols, Management), k) ==
            if k == "gateway" then Trimmed(cols, MgmtGateway)
            else if k == "subnet" then Trimmed(cols, MgmtSubnet)
            else if k == "ip_address" then Trimmed(cols, MgmtIpAddress)
            else if k == "ip_mode" then Plain(cols, MgmtIpMode)
            else None
  {
    var a, b := Entry("ip_mode", Plain(cols, MgmtIpMode)),
                Entry("ip_address", Trimmed(cols, MgmtIpAddress));
    EntryLookup(a + b + Entry("subnet", Trimmed(cols, MgmtSubnet)), "gateway",
                Trimmed(cols, MgmtGateway), k);
    EntryLookup(a + b, "subnet", Trimmed(cols, MgmtSubnet), k);
    EntryLookup(a, "ip_address", Trimmed(cols, MgmtIpAddress), k);
    EntryLookup(map[], "ip_mode", Plain(cols, MgmtIpMode), k);
  }

  // And for WAN.
  lemma WanSources(cols: Columns, k: string)
    ensures From(SectionOf(cols, Wan), k) ==
            if k == "pppoe_password" then Trimmed(cols, PppoePassword)
            else if k == "pppoe_username" then Trimmed(cols, PppoeUsername)
            else if k == "static_dns" then Trimmed(cols, StaticDns)
            else if k == "static_subnet" then Trimmed(cols, StaticSubnet)
            else if k == "static_gateway" then Trimmed(cols, StaticGateway)
            else if k == "static_ip" then Trimmed(cols, StaticIp)
            else if k == "mode" then Mode(cols)
            else if k == "onu_mode" then Plain(cols, WanMode)
            else None
  {
    FiveEntries("onu_mode", Plain(cols, WanMode), "mode", Mode(cols),
                "static_ip", Trimmed(cols, StaticIp),
                "static_gateway", Trimmed(cols, StaticGateway),
                "static_subnet", Trimmed(cols, StaticSubnet), k);
    ThreeMoreEntries(
      Entry("onu_mode", Plain(cols, WanMode)) + Entry("mode", Mode(cols))
      + Entry("static_ip", Trimmed(cols, StaticIp))
      + Entry("static_gateway", Trimmed(cols, StaticGateway))
      + Entry("static_subnet", Trimmed(cols, StaticSubnet)),
      "static_dns", Trimmed(cols, StaticDns), "pppoe_username", Trimmed(cols, PppoeUsername),
      "pppoe_password", Trimmed(cols, PppoePassword), k);
  }

  lemma ThreeMoreEntries(front: map<string, Jsonb>, ka: string, va: Option<Jsonb>,
                         kb: string, vb: Option<Jsonb>, kc: string, vc: Option<Jsonb>, k: string)
    requires ka != kb && ka != kc && kb != kc
    requires From(front, k).Some? ==> k !in {ka, kb, kc}
    ensures From(front + Entry(ka, va) + Entry(kb, vb) + Entry(kc, vc), k) ==
            if k == kc then vc else if k == kb then vb else if k == ka then va else From(front, k)
  {
    EntryLookup(front + Entry(ka, va) + Entry(kb, vb), kc, vc, k);
    EntryLookup(front + Entry(ka, va), kb, vb, k);
    EntryLookup(front, ka, va, k);
  }

  // A text column counts if it holds anything but blanks.
  ghost predicate HasInk(cols: Columns, c: Column) {
    c in cols && cols[c].Text? && exists i :: 0 <= i < |cols[c].s| && cols[c].s[i] != ' '
  }

  // The WAN mode comes from the credentials, then the static address, then the
  // ONU's mode; the stored IP mode is the last resort.
  lemma ModeExactly(cols: Columns)
    ensures Mode(cols) ==
            if HasInk(cols, PppoeUsername) then Some(JText("pppoe"))
            else if HasInk(cols, StaticIp) then Some(JText("static_ip"))
            else if WanMode in cols && cols[WanMode] == Text("bridging") then Some(JText("bridge"))
            else Plain(cols, IpMode)
  {
    TrimmedExactly(cols, PppoeUsername);
    TrimmedExactly(cols, StaticIp);
  }

  // column::text and a boolean column are taken as they are.
  lemma PlainExactly(cols: Columns, c: Column)
    ensures c !in cols ==> Plain(cols, c) == None
    ensures forall s :: c in cols && cols[c] == Text(s) ==> Plain(cols, c) == Some(JText(s))
    ensures forall b :: c in cols && cols[c] == Flag(b) ==> Plain(cols, c) == Some(JBool(b))
  {
  }

  // NULLIF(BTRIM(column), '') is the column without the blanks around it.
  lemma TrimmedExactly(cols: Columns, c: Column)
    ensures Trimmed(cols, c).Some? <==> HasInk(cols, c)
    ensures HasInk(cols, c) ==>
              Trimmed(cols, c).value.JText?
              && T.IsTrimmed(cols[c].s, Trimmed(cols, c).value.s, ch => ch == ' ')
  {
    if c in cols && cols[c].Text? {
      var s := cols[c].s;
      var i := TrimLeftAt(s);
      var j := TrimRightAt(s[i..]);
      assert TrimRight(TrimLeft(s)) == s[i..i + j];
      assert forall k :: i + j <= k < |s| ==> s[k] == s[i..][k - i];
      assert T.TrimmedAt(s, i, i + j, ch => ch == ' ');
      assert j > 0 ==> s[i] != ' ';
      assert j == 0 ==> forall k :: 0 <= k < |s| ==> s[k] == ' ';
    }
  }

  lemma {:induction false} TrimLeftAt(s: string) returns (i: nat)
    ensures i <= |s| && TrimLeft(s) == s[i..]
    ensures forall k :: 0 <= k < i ==> s[k] == ' '
    ensures i < |s| ==> s[i] != ' '
  {
    i := 0;
    if s != "" && s[0] == ' ' {
      i := TrimLeftAt(s[1..]);
      i := i + 1;
      assert forall k :: 0 < k < i ==> s[k] == s[1..][k - 1];
    }
  }

  lemma {:induction false} TrimRightAt(s: string) returns (j: nat)
    ensures j <= |s| && TrimRight(s) == s[..j]
    ensures forall k :: j <= k < |s| ==> s[k] == ' '
    ensures j > 0 ==> s[j - 1] != ' '
  {
    j := |s|;
    if s != "" && s[|s| - 1] == ' ' { j := TrimRightAt(s[..|s| - 1]); }
  }

  lemma EmptyColumnsYieldNothing(section: TopKey)
    ensures SectionOf(map[], section) == map[]
  {
  }

  // ---------------------------------------------------------- the merge

  function Current(desired: Option<Config>): Config {
    if desired.Some? then desired.value else map[]
  }

  // source || COALESCE(config->section, '{}')
  function Filled(source: map<string, Jsonb>, config: Config, section: TopKey): Jsonb {
    Concat(JObject(source), if section in config then config[section] else JObject(map[]))
  }

  // What 084 makes of one configuration.
  function Merged(config: Config, cols: Columns): Config {
    config + map s | s in SECTIONS :: Filled(SectionOf(cols, s), config, s)
  }

  // What 085 makes of one configuration.
  function MergedLan(config: Config, cols: Columns): Config {
    config[Lan := Filled(LanSection(cols), config, Lan)]
  }

  // Sections are absent or objects.
  ghost predicate HasObjectSections(config: Config) {
    forall s :: s in SECTIONS && s in config ==> config[s].JObject?
  }

  // The value of a key in a section.
  function Setting(config: Config, section: TopKey, key: string): Option<Jsonb> {
    if section in config && config[section].JObject? && key in config[section].fields
    then Some(config[section].fields[key]) else None
  }

  function FirstOf(a: Option<Jsonb>, b: Option<Jsonb>): Option<Jsonb> {
    if a.Some? then a else b
  }

  function From(source: map<string, Jsonb>, key: string): Option<Jsonb> {
    if key in source then Some(source[key]) else None
  }

  // The merge keeps object sections objects and touches nothing else.
  lemma MergeKeepsShape(config: Config, cols: Columns)
    requires HasObjectSections(config)
    ensures HasObjectSections(Merged(config, cols)) && SECTIONS <= Merged(config, cols).Keys
    ensures forall t :: t !in SECTIONS ==>
              (t in Merged(config, cols) <==> t in config)
              && (t in config ==> Merged(config, cols)[t] == config[t])
  {
    forall s | s in SECTIONS ensures Merged(config, cols)[s].JObject? {
      MergedSetting(config, cols, s, "");
    }
  }

  // A configuration keeps every setting it has and takes the others from the
  // columns.
  lemma MergedSetting(config: Config, cols: Columns, s: TopKey, k: string)
    requires s in SECTIONS && (s in config ==> config[s].JObject?)
    ensures Merged(config, cols)[s].JObject?
    ensures Setting(Merged(config, cols), s, k) ==
            FirstOf(Setting(config, s, k), From(SectionOf(cols, s), k))
  {
    FilledSetting(SectionOf(cols, s), config, s, k);
    MergedSection(config, cols, s);
  }

  // Filling one section up from any source.
  lemma FilledSetting(source: map<string, Jsonb>, config: Config, s: TopKey, k: string)
    requires s in config ==> config[s].JObject?
    ensures var filled := Filled(source, config, s);
            && filled.JObject?
            && From(filled.fields, k) == FirstOf(Setting(config, s, k), From(source, k))
  {
  }

  lemma MergeLanFillsUp(config: Config, cols: Columns)
    requires HasObjectSections(config)
    ensures HasObjectSections(MergedLan(config, cols))
    ensures forall k :: Setting(MergedLan(config, cols), Lan, k) ==
                        FirstOf(Setting(config, Lan, k), From(LanSection(cols), k))
    ensures forall t :: t != Lan ==>
              (t in MergedLan(config, cols) <==> t in config)
              && (t in config ==> MergedLan(config, cols)[t] == config[t])
  {
  }

  // The assumption is needed: a section stays an object exactly if it was
  // absent or an object. A JSON null, say, becomes an array of two elements,
  // in which none of the filled-in settings can be found by key.
  lemma SectionStaysObjectIff(config: Config, cols: Columns, s: TopKey)
    requires s in SECTIONS
    ensures Merged(config, cols)[s].JObject? <==> (s in config ==> config[s].JObject?)
    ensures s in config && !config[s].JObject? ==>
              forall k :: Setting(Merged(config, cols), s, k) == None
  {
    MergedSection(config, cols, s);
  }

  lemma MergedSection(config: Config, cols: Columns, s: TopKey)
    requires s in SECTIONS
    ensures Merged(config, cols)[s] == Filled(SectionOf(cols, s), config, s)
  {
  }

  // ---------------------------------------------------------- migration 084

  // ORDER BY updated_at DESC NULLS LAST, created_at DESC NULLS LAST
  predicate Newer(a: Option<int>, b: Option<int>) {
    a.Some? && (b.None? || a.value > b.value)
  }

  predicate RanksBefore(a: Assignment, b: Assignment) {
    Newer(a.updatedAt, b.updatedAt)
    || (a.updatedAt == b.updatedAt && Newer(a.createdAt, b.createdAt))
  }

  predicate IsActiveFor(t: Tables, a: Id, u: Id) {
    a in t.assignments && t.assignments[a].isActive == Some(true) && t.assignments[a].unit == u
  }

  // SELECT DISTINCT ON (ont_unit_id): one first-ranked active assignment for
  // every unit that has one; ties may go either way.
  ghost predicate IsActiveChoice(t: Tables, choice: map<Id, Id>) {
    && (forall u :: u in choice <==> exists a :: IsActiveFor(t, a, u))
    && (forall u :: u in choice ==> IsActiveFor(t, choice[u], u))
    && (forall u, a :: u in choice && IsActiveFor(t, a, u) ==>
          !RanksBefore(t.assignments[a], t.assignments[choice[u]]))
  }

  function BackfilledUnit(t: Tables, choice: map<Id, Id>, u: Id): Unit
    requires u in t.units
  {
    var unit := t.units[u];
    if u in choice && choice[u] in t.assignments then
      unit.(desired := Some(Merged(Current(unit.desired), t.assignments[choice[u]].columns)))
    else unit
  }

  function Backfilled(t: Tables, choice: map<Id, Id>): map<Id, Unit> {
    map u | u in t.units :: BackfilledUnit(t, choice, u)
  }

  function Cleared(assignments: map<Id, Assignment>): map<Id, Assignment> {
    map a | a in assignments :: assignments[a].(columns := map[])
  }

  function After084(t: Tables, choice: map<Id, Id>): Tables {
    Tables(Backfilled(t, choice), Cleared(t.assignments), t.legacyColumns)
  }

  ghost predicate AllObjectSections(t: Tables) {
    forall u :: u in t.units ==> HasObjectSections(Current(t.units[u].desired))
  }

  ghost predicate IsFirstFor(t: Tables, a: Id, u: Id) {
    && IsActiveFor(t, a, u)
    && forall b :: IsActiveFor(t, b, u) ==> !RanksBefore(t.assignments[b], t.assignments[a])
  }

  lemma SomeMember<T>(s: set<T>) returns (a: T)
    requires s != {}
    ensures a in s
  {
    a :| a in s;
  }

  // Any finite set of assignments has one that no other ranks before.
  lemma {:induction false} SomeRanksFirst(t: Tables, s: set<Id>) returns (first: Id)
    requires s != {} && s <= t.assignments.Keys
    ensures first in s
    ensures forall b :: b in s ==> !RanksBefore(t.assignments[b], t.assignments[first])
    decreases |s|
  {
    first := SomeMember(s);
    if s != {first} {
      var rest := SomeRanksFirst(t, s - {first});
      if !RanksBefore(t.assignments[first], t.assignments[rest]) { first := rest; }
    }
  }

  ghost function FirstFor(t: Tables, u: Id): Id
    requires exists a :: IsFirstFor(t, a, u)
  {
    var a :| IsFirstFor(t, a, u);
    a
  }

  // Whatever the tables hold, the query has an answer.
  lemma ActiveChoiceExists(t: Tables)
    ensures exists choice :: IsActiveChoice(t, choice)
  {
    var units := set a | a in t.assignments && t.assignments[a].isActive == Some(true)
                   :: t.assignments[a].unit;
    forall u | u in units ensures exists a :: IsFirstFor(t, a, u) {
      var candidates := set a | a in t.assignments && IsActiveFor(t, a, u);
      var a :| a in t.assignments && IsActiveFor(t, a, u);
      assert a in candidates;
      var first := SomeRanksFirst(t, candidates);
      assert IsFirstFor(t, first, u);
    }
    var choice := map u | u in units :: FirstFor(t, u);
    assert IsActiveChoice(t, choice);
  }

  // A date counts as at least another: a missing one is the least.
  predicate AtLeast(a: Option<int>, b: Option<int>) {
    b.None? || (a.Some? && a.value >= b.value)
  }

  // The chosen assignment is active, belongs to the unit, and no other active
  // one of the unit was updated later, or at the same time and created later;
  // missing dates come last.
  lemma ChosenIsLatest(t: Tables, choice: map<Id, Id>, u: Id, other: Id)
    requires IsActiveChoice(t, choice) && u in choice
    ensures choice[u] in t.assignments
    ensures var mine := t.assignments[choice[u]]; mine.isActive == Some(true) && mine.unit == u
    ensures other in t.assignments && t.assignments[other].isActive == Some(true)
            && t.assignments[other].unit == u ==>
              var mine, its := t.assignments[choice[u]], t.assignments[other];
              && AtLeast(mine.updatedAt, its.updatedAt)
              && (mine.updatedAt == its.updatedAt ==> AtLeast(mine.createdAt, its.createdAt))
  {
    assert IsActiveFor(t, choice[u], u);
    if IsActiveFor(t, other, u) {
      assert !RanksBefore(t.assignments[other], t.assignments[choice[u]]);
    }
  }

  // 084 empties the copied columns of every assignment, active or not, and
  // leaves the rest of it and the legacy columns alone.
  lemma ClearedExactly(t: Tables, choice: map<Id, Id>, a: Id)
    ensures var after := After084(t, choice);
            && (a in after.assignments <==> a in t.assignments)
            && (a in t.assignments ==>
                && after.assignments[a].columns == map[]
                && after.assignments[a].unit == t.assignments[a].unit
                && after.assignments[a].isActive == t.assignments[a].isActive
                && after.assignments[a].updatedAt == t.assignments[a].updatedAt
                && after.assignments[a].createdAt == t.assignments[a].createdAt)
            && after.units.Keys == t.units.Keys && after.legacyColumns == t.legacyColumns
            && (forall u :: u in t.units ==> after.units[u].legacy == t.units[u].legacy)
  {
  }

  // Every setting a unit had survives with its value, every other one comes
  // from the unit's chosen active assignment, and units without an active
  // assignment are left as they were.
  lemma BackfillPrecedence(t: Tables, choice: map<Id, Id>, u: Id, s: TopKey, k: string)
    requires AllObjectSections(t) && IsActiveChoice(t, choice)
    requires u in t.units && s in SECTIONS
    ensures u !in choice ==> After084(t, choice).units[u] == t.units[u]
    ensures u in choice ==>
              Setting(Current(After084(t, choice).units[u].desired), s, k) ==
              FirstOf(Setting(Current(t.units[u].desired), s, k),
                      From(SectionOf(t.assignments[choice[u]].columns, s), k))
  {
    if u in choice {
      MergedSetting(Current(t.units[u].desired), t.assignments[choice[u]].columns, s, k);
    }
  }

  lemma BackfillKeepsShape(t: Tables, choice: map<Id, Id>)
    requires AllObjectSections(t) && IsActiveChoice(t, choice)
    ensures AllObjectSections(After084(t, choice))
  {
    forall u | u in t.units
      ensures HasObjectSections(Current(After084(t, choice).units[u].desired))
    {
      if u in choice {
        MergeKeepsShape(Current(t.units[u].desired), t.assignments[choice[u]].columns);
      }
    }
  }

  // Once all four sections are objects, columns that are all NULL add nothing.
  lemma MergeOfNothing(config: Config)
    requires HasObjectSections(config) && SECTIONS <= config.Keys
    ensures Merged(config, map[]) == config
  {
    forall s | s in SECTIONS ensures Merged(config, map[])[s] == config[s] {
      SectionOfNothing(config, s);
    }
  }

  lemma SectionOfNothing(config: Config, s: TopKey)
    requires s in SECTIONS && s in config && config[s].JObject?
    ensures Merged(config, map[])[s] == config[s]
  {
    MergedSection(config, map[], s);
    EmptyColumnsYieldNothing(s);
    FilledFromNothing(config, s);
  }

  lemma FilledFromNothing(config: Config, s: TopKey)
    requires s in config && config[s].JObject?
    ensures Filled(map[], config, s) == config[s]
  {
    assert map[] + config[s].fields == config[s].fields;
  }

  // Running 084 again changes nothing, whichever assignment it chooses then.
  lemma BackfillTwice(t: Tables, first: map<Id, Id>, second: map<Id, Id>)
    requires AllObjectSections(t)
    requires IsActiveChoice(t, first) && IsActiveChoice(After084(t, first), second)
    ensures After084(After084(t, first), second) == After084(t, first)
  {
    var once := After084(t, first);
    assert Cleared(once.assignments) == once.assignments;
    forall u | u in t.units ensures BackfilledUnit(once, second, u) == once.units[u] {
      if u in second {
        assert IsActiveFor(once, second[u], u);
        assert IsActiveFor(t, second[u], u);
        assert u in first;
        MergeKeepsShape(Current(t.units[u].desired), t.assignments[first[u]].columns);
        MergeOfNothing(once.units[u].desired.value);
      }
    }
    assert Backfilled(once, second) == once.units;
  }

  // ---------------------------------------------------------- migration 085

  const LEGACY_LAN: set<Column> := {LanIp, LanSubnet, LanDhcpEnabled, LanDhcpStart, LanDhcpEnd}
  const LEGACY_DROPPED: set<Column> := LEGACY_LAN + {WifiSsid, WifiPassword}

  function WithLegacyLan(unit: Unit): Unit {
    if unit.legacy.Keys * LEGACY_LAN == {} then unit
    else unit.(desired := Some(MergedLan(Current(unit.desired), unit.legacy)))
  }

  // op.drop_column for the given columns
  function WithoutColumns(units: map<Id, Unit>, columns: set<Column>): map<Id, Unit> {
    map u | u in units :: units[u].(legacy := units[u].legacy - columns)
  }

  function LegacyFilled(t: Tables): map<Id, Unit> {
    if LanIp in t.legacyColumns then map u | u in t.units :: WithLegacyLan(t.units[u]) else t.units
  }

  // The UPDATE raises when one of its columns is missing; it is attempted only
  // if lan_gateway_ip exists.
  function After085(t: Tables): Option<Tables> {
    if LanIp in t.legacyColumns && !(LEGACY_LAN <= t.legacyColumns) then None
    else
      Some(t.(
        units := WithoutColumns(LegacyFilled(t), LEGACY_DROPPED),
        legacyColumns := t.legacyColumns - LEGACY_DROPPED))
  }

  lemma LegacyPrecedence(t: Tables, u: Id)
    requires AllObjectSections(t) && u in t.units
    requires LEGACY_LAN <= t.legacyColumns
    ensures After085(t).Some?
    ensures var before, after := Current(t.units[u].desired),
                                 Current(After085(t).value.units[u].desired);
            && (forall k :: Setting(after, Lan, k) ==
                  FirstOf(Setting(before, Lan, k), From(LanSection(t.units[u].legacy), k)))
            && (forall s, k :: s != Lan ==> Setting(after, s, k) == Setting(before, s, k))
  {
    var unit := t.units[u];
    MergeLanFillsUp(Current(unit.desired), unit.legacy);
    if unit.legacy.Keys * LEGACY_LAN == {} {
      NoLegacyLan(unit.legacy);
    }
  }

  lemma NoLegacyLan(cols: Columns)
    requires cols.Keys * LEGACY_LAN == {}
    ensures LanSection(cols) == map[]
  {
    forall c | c in LEGACY_LAN ensures c !in cols {
      assert c !in cols.Keys * LEGACY_LAN;
    }
  }

  // Without the gateway column nothing is backfilled, yet the other legacy
  // columns are dropped all the same.
  lemma WithoutGatewayNothingIsBackfilled(t: Tables, u: Id)
    requires LanIp !in t.legacyColumns && u in t.units
    ensures After085(t).Some?
    ensures After085(t).value.units[u].desired == t.units[u].desired
    ensures After085(t).value.units[u].legacy.Keys !! LEGACY_DROPPED
  {
  }

  // 085 keeps its promise for one unit: every LAN setting is the configured
  // value or else the legacy one.
  ghost predicate IsLayered(before: Unit, after: Unit) {
    forall k :: Setting(Current(after.desired), Lan, k) ==
                FirstOf(Setting(Current(before.desired), Lan, k), From(LanSection(before.legacy), k))
  }

  // The unit holds a legacy LAN value for a key its configuration lacks.
  ghost predicate AwaitsBackfill(unit: Unit) {
    exists k :: From(LanSection(unit.legacy), k).Some? && Setting(Current(unit.desired), Lan, k).None?
  }

  ghost predicate KeepsPromise(t: Tables) {
    After085(t).Some? && forall u :: u in t.units ==> IsLayered(t.units[u], After085(t).value.units[u])
  }

  // It completes and keeps the promise for all units exactly if all its source
  // columns exist, or the gateway column is missing and no unit awaits a value.
  lemma PrecedenceExactly(t: Tables)
    requires AllObjectSections(t)
    ensures KeepsPromise(t) <==>
            || LEGACY_LAN <= t.legacyColumns
            || (LanIp !in t.legacyColumns
                && forall u :: u in t.units ==> !AwaitsBackfill(t.units[u]))
  {
    if LEGACY_LAN <= t.legacyColumns {
      forall u | u in t.units ensures IsLayered(t.units[u], After085(t).value.units[u]) {
        LegacyPrecedence(t, u);
      }
    } else if LanIp !in t.legacyColumns {
      forall u | u in t.units
        ensures IsLayered(t.units[u], After085(t).value.units[u]) <==> !AwaitsBackfill(t.units[u])
      {
        WithoutGatewayNothingIsBackfilled(t, u);
        UntouchedIsLayeredIff(t.units[u], After085(t).value.units[u]);
      }
    }
  }

  lemma UntouchedIsLayeredIff(before: Unit, after: Unit)
    requires after.desired == before.desired
    ensures IsLayered(before, after) <==> !AwaitsBackfill(before)
  {
    var has, legacy := Current(before.desired), LanSection(before.legacy);
    forall k ensures Setting(has, Lan, k) == FirstOf(Setting(has, Lan, k), From(legacy, k)) <==>
                     !(From(legacy, k).Some? && Setting(has, Lan, k).None?)
    {
    }
  }

  // A value gets lost: a table with the subnet column but no gateway column,
  // and one unit without a configuration that holds a subnet there.
  lemma LegacyValueGetsLost()
    ensures var unit := Unit(None, map[LanSubnet := Text("x")]);
            var t := Tables(map[1 := unit], map[], {LanSubnet});
            && AllObjectSections(t) && AwaitsBackfill(unit)
            && After085(t) == Some(Tables(map[1 := Unit(None, map[])], map[], {}))
  {
    var unit := Unit(None, map[LanSubnet := Text("x")]);
    var t := Tables(map[1 := unit], map[], {LanSubnet});
    LanAddressSources(unit.legacy);
    assert TrimLeft("x") == "x" && TrimRight("x") == "x";
    assert From(LanSection(unit.legacy), "subnet") == Some(JText("x"));
    assert unit.legacy - LEGACY_DROPPED == map[];
    assert WithoutColumns(t.units, LEGACY_DROPPED) == map[1 := Unit(None, map[])];
    assert t.legacyColumns - LEGACY_DROPPED == {};
  }

  // 085 drops the seven legacy columns, with all their values, whatever else
  // it does, and raises exactly if the gateway column is there and one of the
  // other four that its UPDATE reads is not.
  lemma DroppedExactly(t: Tables)
    ensures After085(t).None? <==>
            LanIp in t.legacyColumns
            && exists c :: c in [LanSubnet, LanDhcpEnabled, LanDhcpStart, LanDhcpEnd]
                           && c !in t.legacyColumns
    ensures After085(t).Some? ==>
              var after, gone := After085(t).value, {LanIp, LanSubnet, LanDhcpEnabled, LanDhcpStart,
                                                     LanDhcpEnd, WifiSsid, WifiPassword};
              && after.legacyColumns == t.legacyColumns - gone
              && after.assignments == t.assignments && after.units.Keys == t.units.Keys
              && forall u :: u in t.units ==> after.units[u].legacy == t.units[u].legacy - gone
  {
  }

  // ---------------------------------------------------------- both

  // After 084 and 085 each LAN setting comes from the first source that has
  // it: the existing configuration, the active assignment, the legacy columns.
  // No setting that existed in any section has changed.
  lemma LayeredPrecedence(t: Tables, choice: map<Id, Id>, u: Id, s: TopKey, k: string)
    requires AllObjectSections(t) && IsActiveChoice(t, choice)
    requires u in t.units && s in SECTIONS
    requires LEGACY_LAN <= t.legacyColumns
    ensures After085(After084(t, choice)).Some?
    ensures var before := Current(t.units[u].desired);
            var after := Current(After085(After084(t, choice)).value.units[u].desired);
            && Setting(after, Lan, k) ==
               FirstOf(Setting(before, Lan, k),
                       FirstOf(if u in choice
                               then From(LanSection(t.assignments[choice[u]].columns), k) else None,
                               From(LanSection(t.units[u].legacy), k)))
            && (Setting(before, s, k).Some? ==> Setting(after, s, k) == Setting(before, s, k))
  {
    BackfillKeepsShape(t, choice);
    BackfillPrecedence(t, choice, u, Lan, k);
    BackfillPrecedence(t, choice, u, s, k);
    LegacyPrecedence(After084(t, choice), u);
  }

  // Neither migration touches a top-level key outside the four sections, and
  // 085 leaves a unit without legacy LAN values its configuration as it is,
  // missing or not.
  lemma OtherKeysUntouched(t: Tables, choice: map<Id, Id>, u: Id, key: TopKey)
    requires u in t.units && key !in SECTIONS
    ensures var before, after := Current(t.units[u].desired),
                                 Current(After084(t, choice).units[u].desired);
            (key in after <==> key in before) && (key in before ==> after[key] == before[key])
    ensures After085(t).Some? ==>
              var before, after := Current(t.units[u].desired),
                                   Current(After085(t).value.units[u].desired);
              && (key in after <==> key in before)
              && (key in before ==> after[key] == before[key])
              && ((forall c :: c in LEGACY_LAN ==> c !in t.units[u].legacy) ==>
                  After085(t).value.units[u].desired == t.units[u].desired)
  {
    assert t.units[u].legacy.Keys * LEGACY_LAN == {} <==>
           forall c :: c in LEGACY_LAN ==> c !in t.units[u].legacy;
  }

  // ---------------------------------------------------------- the upgrades

  class Migration {
    var tables: Tables

    constructor (tables: Tables)
      ensures this.tables == tables
    {
      this.tables := tables;
    }

    // The two ordered UPDATEs of 084: fill up, then clear every assignment.
    method Upgrade084(choice: map<Id, Id>)
      requires IsActiveChoice(tables, choice)
      modifies this
      ensures tables == After084(old(tables), choice)
    {
      tables := tables.(units := Backfilled(tables, choice));
      tables := tables.(assignments := Cleared(tables.assignments));
    }

    // 085: the conditional UPDATE, then the loop over the columns to drop.
    method Upgrade085() returns (raised: bool)
      modifies this
      ensures raised <==> After085(old(tables)).None?
      ensures !raised ==> tables == After085(old(tables)).value
    {
      ghost var start := tables;
      if LanIp in tables.legacyColumns {
        if !(LEGACY_LAN <= tables.legacyColumns) { return true; }
        tables := tables.(units := map u | u in tables.units :: WithLegacyLan(tables.units[u]));
      }
      ghost var filled := tables.units;
      ghost var dropped: set<Column> := {};
      NothingDropped(filled);
      var todo := LEGACY_DROPPED;
      while todo != {}
        invariant todo !! dropped && todo + dropped == LEGACY_DROPPED
        invariant tables == start.(units := WithoutColumns(filled, dropped),
                                   legacyColumns := start.legacyColumns - dropped)
      {
        var column :| column in todo;
        DropStep(filled, dropped, column);
        DropColumn(column);
        todo, dropped := todo - {column}, dropped + {column};
      }
      return false;
    }

    method DropColumn(column: Column)
      modifies this
      ensures tables == old(tables).(units := WithoutColumns(old(tables).units, {column}),
                                     legacyColumns := old(tables).legacyColumns - {column})
    {
      tables := tables.(units := WithoutColumns(tables.units, {column}),
                        legacyColumns := tables.legacyColumns - {column});
    }
  }

  lemma NothingDropped(units: map<Id, Unit>)
    ensures WithoutColumns(units, {}) == units
  {
    forall u | u in units ensures units[u].legacy - {} == units[u].legacy {
    }
  }

  lemma DropStep(units: map<Id, Unit>, dropped: set<Column>, column: Column)
    ensures WithoutColumns(WithoutColumns(units, dropped), {column})
            == WithoutColumns(units, dropped + {column})
  {
    forall u | u in units
      ensures units[u].legacy - dropped - {column} == units[u].legacy - (dropped + {column})
    {
    }
  }
}
