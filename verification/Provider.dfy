/** The provider configuration: the overlay, the lookup and the validation of
internal/provider/provider.go. */
module Provider {
  import opened GoText
  import opened Template

  datatype Artifact = Artifact(
    backend: string,
    bucket: string, baseURL: string, path: string,
    name: string, index: string, checksum: string, database: string,
    repository: string, codename: string, component: string, package: string,
    insecure: bool)

  datatype Network = Network(
    archiveDump: Option<Artifact>,
    precomputedBlocks: Option<Artifact>,
    daemonConfig: Option<Artifact>,
    genesisConfig: Option<Artifact>)

  datatype Publisher = Publisher(description: string, networks: map<string, Network>)

  datatype Config = Config(version: int, defaultProvider: string, providers: map<string, Publisher>)

  const AllKinds := [ArchiveDump, PrecomputedBlocks, DaemonConfig, GenesisConfig]

  function ArtifactOf(n: Network, kind: Kind): Option<Artifact> {
    match kind
    case ArchiveDump => n.archiveDump
    case PrecomputedBlocks => n.precomputedBlocks
    case DaemonConfig => n.daemonConfig
    case GenesisConfig => n.genesisConfig
  }

  function SetArtifact(n: Network, kind: Kind, a: Artifact): (r: Network)
    ensures forall k :: ArtifactOf(r, k) == if k == kind then Some(a) else ArtifactOf(n, k)
  {
    match kind
    case ArchiveDump => n.(archiveDump := Some(a))
    case PrecomputedBlocks => n.(precomputedBlocks := Some(a))
    case DaemonConfig => n.(daemonConfig := Some(a))
    case GenesisConfig => n.(genesisConfig := Some(a))
  }

  // ----- the overlay, key by key -----

  function Override<T>(base: Option<T>, over: Option<T>): Option<T> {
    if over.Some? then over else base
  }

  function MergedNetwork(base: Network, over: Network): Network {
    Network(Override(base.archiveDump, over.archiveDump),
            Override(base.precomputedBlocks, over.precomputedBlocks),
            Override(base.daemonConfig, over.daemonConfig),
            Override(base.genesisConfig, over.genesisConfig))
  }

  function MergedNetworks(base: map<string, Network>, over: map<string, Network>): map<string, Network> {
    map n | n in base.Keys + over.Keys ::
      if n !in over then base[n] else if n !in base then over[n] else MergedNetwork(base[n], over[n])
  }

  function MergedPublisher(base: Publisher, over: Publisher): Publisher {
    Publisher(if over.description != "" then over.description else base.description,
              MergedNetworks(base.networks, over.networks))
  }

  function MergedPublishers(base: map<string, Publisher>, over: map<string, Publisher>): map<string, Publisher> {
    map p | p in base.Keys + over.Keys ::
      if p !in over then base[p] else if p !in base then over[p] else MergedPublisher(base[p], over[p])
  }

  function Merged(base: Config, over: Config): Config {
    Config(if over.version != 0 then over.version else base.version,
           if over.defaultProvider != "" then over.defaultProvider else base.defaultProvider,
           MergedPublishers(base.providers, over.providers))
  }

  // ----- the tables that a configuration shares -----

  /** A table of networks, which merge copies by reference. */
  class NetworkTable {
    var nets: map<string, Network>

    constructor ()
      ensures nets == map[]
    {
      nets := map[];
    }
  }

  datatype Entry = Entry(description: string, networks: NetworkTable)

  class ProviderTable {
    var entries: map<string, Entry>

    constructor ()
      ensures entries == map[]
    {
      entries := map[];
    }
  }

  /** A configuration in memory. A table that is absent is an empty one: both read
  alike, and merge writes only to tables it has made. */
  datatype Loaded = Loaded(version: int, defaultProvider: string, providers: ProviderTable)

  function TablesOf(entries: map<string, Entry>): set<NetworkTable> {
    set p | p in entries :: entries[p].networks
  }

  function PublishersOf(entries: map<string, Entry>): map<string, Publisher>
    reads TablesOf(entries)
  {
    map p | p in entries :: Publisher(entries[p].description, entries[p].networks.nets)
  }

  function ValueOf(c: Loaded): Config
    reads c.providers, TablesOf(c.providers.entries)
  {
    Config(c.version, c.defaultProvider, PublishersOf(c.providers.entries))
  }

  // ----- the loops of merge -----

  method OverrideArtifacts(base: Network, over: Network) returns (n: Network)
    ensures n == MergedNetwork(base, over)
  {
    n := base;
    var k := 0;
    while k < |AllKinds|
      invariant 0 <= k <= |AllKinds|
      invariant forall j :: 0 <= j < |AllKinds| ==>
        ArtifactOf(n, AllKinds[j]) ==
          if j < k then Override(ArtifactOf(base, AllKinds[j]), ArtifactOf(over, AllKinds[j]))
          else ArtifactOf(base, AllKinds[j])
    {
      var a := ArtifactOf(over, AllKinds[k]);
      if a.Some? {
        n := SetArtifact(n, AllKinds[k], a.value);
      }
      k := k + 1;
    }
    EveryKind(n, MergedNetwork(base, over));
  }

  lemma EveryKind(m: Network, n: Network)
    requires forall j :: 0 <= j < |AllKinds| ==> ArtifactOf(m, AllKinds[j]) == ArtifactOf(n, AllKinds[j])
    ensures m == n
  {
    assert AllKinds[0] == ArchiveDump && AllKinds[1] == PrecomputedBlocks;
    assert AllKinds[2] == DaemonConfig && AllKinds[3] == GenesisConfig;
  }

  method CopyNetworks(base: NetworkTable) returns (out: NetworkTable)
    ensures fresh(out) && out.nets == base.nets
  {
    out := new NetworkTable();
    var todo := base.nets.Keys;
    while todo != {}
      invariant fresh(out) && todo <= base.nets.Keys
      invariant out.nets == base.nets - todo
      decreases |todo|
    {
      var n :| n in todo;
      todo := todo - {n};
      out.nets := out.nets[n := base.nets[n]];
    }
    assert out.nets == base.nets;
  }

  /** The networks of a provider that both sides have, in a new table. The keys are
  taken in any order. */
  method MergeNetworks(base: NetworkTable, over: NetworkTable) returns (out: NetworkTable)
    ensures fresh(out) && out.nets == MergedNetworks(base.nets, over.nets)
  {
    hide MergedNetworks, MergedNetwork, NetworksSoFar;
    out := CopyNetworks(base);
    var todo := over.nets.Keys;
    NetworksStart(base.nets, over.nets);
    while todo != {}
      invariant fresh(out) && todo <= over.nets.Keys
      invariant out.nets == NetworksSoFar(base.nets, over.nets, todo)
      decreases |todo|
    {
      var n :| n in todo;
      NetworksStep(base.nets, over.nets, todo, n);
      todo := todo - {n};
      if n !in out.nets {
        out.nets := out.nets[n := over.nets[n]];
      } else {
        var merged := OverrideArtifacts(out.nets[n], over.nets[n]);
        out.nets := out.nets[n := merged];
      }
    }
  }

  /** The overlay of the keys that are not still to do. */
  function NetworksSoFar(base: map<string, Network>, over: map<string, Network>, todo: set<string>): map<string, Network> {
    MergedNetworks(base, over - todo)
  }

  lemma NetworksStart(base: map<string, Network>, over: map<string, Network>)
    ensures NetworksSoFar(base, over, over.Keys) == base
    ensures NetworksSoFar(base, over, {}) == MergedNetworks(base, over)
  {
    assert over - {} == over;
  }

  /** One more key of the overlay. */
  lemma NetworksStep(base: map<string, Network>, over: map<string, Network>, todo: set<string>, n: string)
    requires n in todo && todo <= over.Keys
    ensures var before := NetworksSoFar(base, over, todo);
      && (n in before <==> n in base) && (n in base ==> before[n] == base[n])
      && NetworksSoFar(base, over, todo - {n}) ==
           before[n := if n in base then MergedNetwork(base[n], over[n]) else over[n]]
  {
    hide MergedNetwork;
    var before := NetworksSoFar(base, over, todo);
    var x := NetworksSoFar(base, over, todo - {n});
    var y := before[n := if n in base then MergedNetwork(base[n], over[n]) else over[n]];
    assert x.Keys == y.Keys;
    forall k | k in x ensures x[k] == y[k] {
    }
  }

  /** Which tables the entries made so far have: a new one for each provider that
  both sides have and that is not still to do, and else the one that was there. */
  predicate Shares(entries: map<string, Entry>, base: map<string, Entry>, over: map<string, Entry>, todo: set<string>,
                   made: set<NetworkTable>)
  {
    && entries.Keys == base.Keys + (over.Keys - todo)
    && forall p :: p in entries ==>
         if p in base && p in over && p !in todo then entries[p].networks in made
         else if p in base then entries[p] == base[p]
         else entries[p] == over[p]
  }

  method CopyEntries(base: ProviderTable) returns (out: ProviderTable)
    ensures fresh(out) && out.entries == base.entries
  {
    out := new ProviderTable();
    var todo := base.entries.Keys;
    while todo != {}
      invariant fresh(out) && todo <= base.entries.Keys
      invariant out.entries == base.entries - todo
      decreases |todo|
    {
      var p :| p in todo;
      todo := todo - {p};
      out.entries := out.entries[p := base.entries[p]];
    }
    assert base.entries - {} == base.entries;
  }

  lemma PublishersPut(entries: map<string, Entry>, p: string, e: Entry)
    ensures PublishersOf(entries[p := e]) == PublishersOf(entries)[p := Publisher(e.description, e.networks.nets)]
  {
  }

  /** One provider of the overlay. */
  method MergeEntry(base: Entry, over: Entry) returns (out: Entry)
    ensures fresh(out.networks)
    ensures Publisher(out.description, out.networks.nets) ==
      MergedPublisher(Publisher(base.description, base.networks.nets), Publisher(over.description, over.networks.nets))
  {
    hide MergedNetworks;
    var networks := MergeNetworks(base.networks, over.networks);
    out := Entry(if over.description != "" then over.description else base.description, networks);
  }

  function PublisherOf(e: Entry): Publisher
    reads e.networks
  {
    Publisher(e.description, e.networks.nets)
  }

  /** One provider of the overlay over the values so far. */
  function PutValue(values: map<string, Publisher>, p: string, over: Publisher): map<string, Publisher> {
    values[p := if p in values then MergedPublisher(values[p], over) else over]
  }

  /** One provider of the overlay goes into the result. */
  method PutEntry(out: ProviderTable, p: string, over: Entry, ghost values: map<string, Publisher>) returns (e: Entry)
    requires values == PublishersOf(out.entries)
    modifies out
    ensures out.entries == old(out.entries)[p := e]
    ensures if p in old(out.entries) then fresh(e.networks) else e == over
    ensures PublishersOf(out.entries) == PutValue(values, p, old(PublisherOf(over)))
  {
    hide MergedPublisher, PublishersOf;
    ghost var before := out.entries;
    PublishersKeys(before);
    if p in out.entries {
      e := MergeEntry(out.entries[p], over);
    } else {
      e := over;
    }
    out.entries := out.entries[p := e];
    PublishersKept(before);
    PublishersPut(before, p, e);
  }

  lemma SharesStep(entries: map<string, Entry>, base: map<string, Entry>, over: map<string, Entry>, todo: set<string>,
                   made: set<NetworkTable>, p: string, e: Entry, more: set<NetworkTable>)
    requires Shares(entries, base, over, todo, made) && p in todo && todo <= over.Keys && made <= more
    requires if p in entries then e.networks in more else e == over[p]
    ensures Shares(entries[p := e], base, over, todo - {p}, more)
  {
  }

  /** The result so far: the overlay of the providers that are not still to do. */
  ghost predicate SoFar(entries: map<string, Entry>, b: map<string, Entry>, o: map<string, Entry>,
                        bv: map<string, Publisher>, ov: map<string, Publisher>, todo: set<string>, made: set<NetworkTable>)
    reads TablesOf(entries)
  {
    Shares(entries, b, o, todo, made) && PublishersOf(entries) == PublishersSoFar(bv, ov, todo)
  }

  method PutNext(out: ProviderTable, p: string, over: Entry, ghost b: map<string, Entry>, ghost o: map<string, Entry>,
                 ghost bv: map<string, Publisher>, ghost ov: map<string, Publisher>, ghost todo: set<string>,
                 ghost made: set<NetworkTable>)
    returns (ghost more: set<NetworkTable>)
    requires SoFar(out.entries, b, o, bv, ov, todo, made) && p in todo
    requires todo <= o.Keys && ov.Keys == o.Keys && over == o[p] && ov[p] == PublisherOf(over)
    modifies out
    ensures made <= more && fresh(more - made) && SoFar(out.entries, b, o, bv, ov, todo - {p}, more)
  {
    hide PublishersOf, PublishersSoFar, PutValue, MergedPublisher, PublisherOf, Shares;
    ghost var before := out.entries;
    PublishersStep(bv, ov, todo, p);
    var e := PutEntry(out, p, over, PublishersOf(before));
    more := if p in before then made + {e.networks} else made;
    SharesStep(before, b, o, todo, made, p, e, more);
  }

  /** The providers of the overlay, in any order of their names. */
  method PutEntries(out: ProviderTable, over: ProviderTable, ghost bv: map<string, Publisher>, ghost ov: map<string, Publisher>)
    returns (ghost made: set<NetworkTable>)
    requires out != over && bv == PublishersOf(out.entries) && ov == PublishersOf(over.entries)
    modifies out
    ensures fresh(made) && Shares(out.entries, old(out.entries), over.entries, {}, made)
    ensures PublishersOf(out.entries) == MergedPublishers(bv, ov)
  {
    hide MergedPublishers, PublishersOf, PublishersSoFar, PublisherOf, Shares, SoFar;
    ghost var b, o := out.entries, over.entries;
    made := {};
    SoFarStart(b, o);
    var todo := over.entries.Keys;
    while todo != {}
      invariant fresh(made) && todo <= o.Keys && over.entries == o
      invariant SoFar(out.entries, b, o, bv, ov, todo, made)
      decreases |todo|
    {
      var p :| p in todo;
      PublishersKept(o);
      PublisherAt(o, p);
      made := PutNext(out, p, over.entries[p], b, o, bv, ov, todo, made);
      todo := todo - {p};
    }
    SoFarEnd(out.entries, b, o, bv, ov, made);
  }

  lemma SoFarStart(b: map<string, Entry>, o: map<string, Entry>)
    ensures PublishersOf(o).Keys == o.Keys
    ensures SoFar(b, b, o, PublishersOf(b), PublishersOf(o), o.Keys, {})
  {
    hide MergedPublishers, PublishersOf, PublishersSoFar, Shares;
    PublishersKeys(o);
    PublishersStart(PublishersOf(b), PublishersOf(o));
    SharesAll(b, o);
  }

  lemma SoFarEnd(entries: map<string, Entry>, b: map<string, Entry>, o: map<string, Entry>,
                 bv: map<string, Publisher>, ov: map<string, Publisher>, made: set<NetworkTable>)
    requires SoFar(entries, b, o, bv, ov, {}, made)
    ensures Shares(entries, b, o, {}, made) && PublishersOf(entries) == MergedPublishers(bv, ov)
  {
    hide MergedPublishers, PublishersOf, Shares;
    PublishersStart(bv, ov);
  }

  lemma SharesAll(base: map<string, Entry>, over: map<string, Entry>)
    ensures Shares(base, base, over, over.Keys, {})
  {
  }

  /** The result has a new provider table, and a new network table for each provider
  that both sides have; every other network table it shares with them. No table
  that was there before is written to. */
  method Merge(base: Loaded, over: Loaded) returns (out: Loaded)
    ensures ValueOf(out) == Merged(old(ValueOf(base)), old(ValueOf(over)))
    ensures ValueOf(base) == old(ValueOf(base)) && ValueOf(over) == old(ValueOf(over))
    ensures base.providers.entries == old(base.providers.entries) && over.providers.entries == old(over.providers.entries)
    ensures fresh(out.providers)
    ensures forall p :: p in out.providers.entries ==>
      var e, b, o := out.providers.entries[p], base.providers.entries, over.providers.entries;
      if p in b && p in o then fresh(e.networks) else if p in b then e == b[p] else p in o && e == o[p]
  {
    hide MergedPublishers, PublishersOf;
    ghost var b, o := base.providers.entries, over.providers.entries;
    ghost var bv, ov := PublishersOf(b), PublishersOf(o);
    var version := if over.version != 0 then over.version else base.version;
    var defaultProvider := if over.defaultProvider != "" then over.defaultProvider else base.defaultProvider;
    var providers := CopyEntries(base.providers);
    PublishersKept(b);
    PublishersKept(o);
    ghost var made := PutEntries(providers, over.providers, bv, ov);
    PublishersKept(b);
    PublishersKept(o);
    out := Loaded(version, defaultProvider, providers);
  }

  /** A run that writes to none of the tables keeps what they hold. */
  twostate lemma PublishersKept(entries: map<string, Entry>)
    requires forall p :: p in entries ==> unchanged(entries[p].networks)
    ensures PublishersOf(entries) == old(PublishersOf(entries))
  {
  }

  lemma PublisherAt(entries: map<string, Entry>, p: string)
    requires p in entries
    ensures p in PublishersOf(entries) && PublishersOf(entries)[p] == PublisherOf(entries[p])
  {
  }

  lemma PublishersKeys(entries: map<string, Entry>)
    ensures PublishersOf(entries).Keys == entries.Keys
    ensures forall p :: p in entries ==>
      PublishersOf(entries)[p] == Publisher(entries[p].description, entries[p].networks.nets)
  {
  }

  /** The overlay of the keys that are not still to do. */
  function PublishersSoFar(base: map<string, Publisher>, over: map<string, Publisher>, todo: set<string>)
    : map<string, Publisher>
  {
    MergedPublishers(base, over - todo)
  }

  lemma PublishersStart(base: map<string, Publisher>, over: map<string, Publisher>)
    ensures PublishersSoFar(base, over, over.Keys) == base
    ensures PublishersSoFar(base, over, {}) == MergedPublishers(base, over)
  {
    assert over - {} == over;
  }

  lemma PublishersStep(base: map<string, Publisher>, over: map<string, Publisher>, todo: set<string>, p: string)
    requires p in todo && todo <= over.Keys
    ensures PublishersSoFar(base, over, todo - {p}) == PutValue(PublishersSoFar(base, over, todo), p, over[p])
  {
    hide MergedPublisher;
    var x := PublishersSoFar(base, over, todo - {p});
    var y := PutValue(PublishersSoFar(base, over, todo), p, over[p]);
    assert x.Keys == y.Keys;
    forall k | k in x ensures x[k] == y[k] {
    }
  }

  // ----- the laws of the overlay -----

  function Lookup(c: Config, p: string, n: string, kind: Kind): Option<Artifact> {
    if p in c.providers && n in c.providers[p].networks then ArtifactOf(c.providers[p].networks[n], kind) else None
  }

  /** An artifact of the overlay replaces the base one whole; every other artifact
  of the base stays. */
  lemma LookupInMerge(base: Config, over: Config, p: string, n: string, kind: Kind)
    ensures Lookup(Merged(base, over), p, n, kind) == Override(Lookup(base, p, n, kind), Lookup(over, p, n, kind))
  {
  }

  lemma NetworksAssociate(a: map<string, Network>, b: map<string, Network>, c: map<string, Network>)
    ensures MergedNetworks(MergedNetworks(a, b), c) == MergedNetworks(a, MergedNetworks(b, c))
  {
    var x, y := MergedNetworks(MergedNetworks(a, b), c), MergedNetworks(a, MergedNetworks(b, c));
    forall n | n in x ensures n in y && x[n] == y[n] {
    }
  }

  lemma PublishersAssociate(a: map<string, Publisher>, b: map<string, Publisher>, c: map<string, Publisher>)
    ensures MergedPublishers(MergedPublishers(a, b), c) == MergedPublishers(a, MergedPublishers(b, c))
  {
    hide MergedNetworks;
    var x, y := MergedPublishers(MergedPublishers(a, b), c), MergedPublishers(a, MergedPublishers(b, c));
    forall p | p in x ensures p in y && x[p] == y[p] {
      if p in a && p in b && p in c {
        NetworksAssociate(a[p].networks, b[p].networks, c[p].networks);
      }
    }
    assert x.Keys == y.Keys;
  }

  /** Overlays can be combined before or after they are applied. */
  lemma MergeAssociates(a: Config, b: Config, c: Config)
    ensures Merged(Merged(a, b), c) == Merged(a, Merged(b, c))
  {
    hide MergedPublishers;
    PublishersAssociate(a.providers, b.providers, c.providers);
  }

  lemma NetworksIdempotent(a: map<string, Network>)
    ensures MergedNetworks(a, a) == a
  {
    assert forall n :: n in a ==> MergedNetwork(a[n], a[n]) == a[n];
  }

  /** Applying an overlay to itself, or nothing to a configuration, changes nothing. */
  lemma MergeIdempotent(a: Config)
    ensures Merged(a, a) == a
    ensures Merged(a, Config(0, "", map[])) == a
    ensures Merged(Config(0, "", map[]), a) == a
  {
    forall p | p in a.providers ensures MergedPublisher(a.providers[p], a.providers[p]) == a.providers[p] {
      NetworksIdempotent(a.providers[p].networks);
    }
    assert MergedPublishers(a.providers, a.providers) == a.providers;
    assert MergedPublishers(a.providers, map[]) == a.providers;
    assert MergedPublishers(map[], a.providers) == a.providers;
  }

  /** Applying an overlay a second time changes nothing. */
  lemma MergeTwice(a: Config, b: Config)
    ensures Merged(Merged(a, b), b) == Merged(a, b)
  {
    hide Merged;
    MergeAssociates(a, b, b);
    MergeIdempotent(b);
  }

  // ----- lookup and validation -----

  datatype ResolveError = UnknownProvider | NothingForNetwork | NoArtifact

  function Resolve(c: Config, providerName: string, network: string, kind: Kind): Result<Artifact, ResolveError> {
    var p := if providerName == "" then c.defaultProvider else providerName;
    if p !in c.providers then Err(UnknownProvider)
    else if network !in c.providers[p].networks then Err(NothingForNetwork)
    else
      var a := ArtifactOf(c.providers[p].networks[network], kind);
      if a.None? then Err(NoArtifact) else Ok(a.value)
  }

  /** A name that PostgreSQL needs no quotes for. */
  predicate PlainName(db: string) {
    && db != "" && !IsDigit(db[0])
    && forall i :: 0 <= i < |db| ==> db[i] == '_' || IsDigit(db[i]) || 'a' <= db[i] <= 'z'
  }

  /** What validation asks of an artifact. urlOk says whether an endpoint is
  acceptable, given its insecure setting. */
  predicate ValidArtifact(urlOk: (string, bool) -> bool, a: Artifact, kind: Kind) {
    && (a.backend == "gcs" || a.backend == "http" || a.backend == "file" || a.backend == "apt")
    && (a.backend == "gcs" ==> a.bucket != "")
    && (a.backend == "http" ==> a.baseURL != "" && urlOk(a.baseURL, a.insecure))
    && (a.backend == "http" && a.index != "" ==> urlOk(a.index, a.insecure))
    && (a.backend == "file" ==> a.path != "")
    && (a.backend == "apt" ==> kind == DaemonConfig && a.repository != "" && a.package != "" && urlOk(a.repository, a.insecure))
    && a.checksum in {"index", "sidecar", "none", ""}
    && (a.checksum == "index" ==> a.backend == "apt")
    && (a.insecure ==> a.backend == "http" || a.backend == "apt")
    && (a.database != "" ==> kind == ArchiveDump && PlainName(a.database))
    && (a.backend != "apt" ==> a.name != "" && Accepted(a.name, kind))
  }

  predicate DatabaseFits(a: Artifact, kind: Kind) {
    a.database == "" || (kind == ArchiveDump && PlainName(a.database))
  }

  predicate NameFits(a: Artifact, kind: Kind) {
    a.name != "" && Accepted(a.name, kind)
  }

  /** Which artifacts are valid, backend by backend; there is no fifth one. */
  lemma ArtifactsByBackend(urlOk: (string, bool) -> bool, a: Artifact, kind: Kind)
    ensures a.backend == "gcs" ==>
      (ValidArtifact(urlOk, a, kind) <==>
        a.bucket != "" && a.checksum in {"", "none", "sidecar"} && !a.insecure && DatabaseFits(a, kind) && NameFits(a, kind))
    ensures a.backend == "file" ==>
      (ValidArtifact(urlOk, a, kind) <==>
        a.path != "" && a.checksum in {"", "none", "sidecar"} && !a.insecure && DatabaseFits(a, kind) && NameFits(a, kind))
    ensures a.backend == "http" ==>
      (ValidArtifact(urlOk, a, kind) <==>
        && a.baseURL != "" && urlOk(a.baseURL, a.insecure) && (a.index == "" || urlOk(a.index, a.insecure))
        && a.checksum in {"", "none", "sidecar"} && DatabaseFits(a, kind) && NameFits(a, kind))
    ensures a.backend == "apt" ==>
      (ValidArtifact(urlOk, a, kind) <==>
        && kind == DaemonConfig && a.repository != "" && a.package != "" && urlOk(a.repository, a.insecure)
        && a.checksum in {"", "none", "sidecar", "index"} && a.database == "")
    ensures a.backend !in {"gcs", "http", "file", "apt"} ==> !ValidArtifact(urlOk, a, kind)
  {
    hide Accepted;
  }

  /** The plain names, character by character. */
  lemma PlainNames(s: string, c: char)
    ensures !PlainName("")
    ensures PlainName([c]) <==>
      c in {'a', 'b', 'c', 'd', 'e', 'f', 'g', 'h', 'i', 'j', 'k', 'l', 'm',
                     'n', 'o', 'p', 'q', 'r', 's', 't', 'u', 'v', 'w', 'x', 'y', 'z', '_'}
    ensures s != "" ==>
      (PlainName(s + [c]) <==>
        PlainName(s) && (PlainName([c]) || c in {'0', '1', '2', '3', '4', '5', '6', '7', '8', '9'}))
  {
    var t := s + [c];
    assert t[|s|] == c && forall i :: 0 <= i < |s| ==> t[i] == s[i];
  }

  method ValidateArtifact(urlOk: (string, bool) -> bool, a: Artifact, kind: Kind) returns (ok: bool)
    ensures ok <==> ValidArtifact(urlOk, a, kind)
  {
    hide Accepted;
    match a.backend {
      case "gcs" =>
        if a.bucket == "" {
          return false;
        }
      case "http" =>
        if a.baseURL == "" || !urlOk(a.baseURL, a.insecure) {
          return false;
        }
        if a.index != "" && !urlOk(a.index, a.insecure) {
          return false;
        }
      case "file" =>
        if a.path == "" {
          return false;
        }
      case "apt" =>
        if a.repository == "" || a.package == "" || kind != DaemonConfig || !urlOk(a.repository, a.insecure) {
          return false;
        }
      case _ =>
        return false;
    }
    if a.checksum !in {"index", "sidecar", "none", ""} {
      return false;
    }
    if a.checksum == "index" && a.backend != "apt" {
      return false;
    }
    if a.insecure && a.backend != "http" && a.backend != "apt" {
      return false;
    }
    if a.database != "" && (kind != ArchiveDump || !PlainName(a.database)) {
      return false;
    }
    if a.backend != "apt" {
      if a.name == "" {
        return false;
      }
      var e := CheckTemplate(a.name, kind);
      if e.Some? {
        return false;
      }
    }
    return true;
  }

  ghost predicate ValidConfig(urlOk: (string, bool) -> bool, c: Config) {
    && c.version == 1
    && c.providers != map[]
    && c.defaultProvider in c.providers
    && forall p :: p in c.providers ==> ValidPublisher(urlOk, c.providers[p])
  }

  ghost predicate ValidPublisher(urlOk: (string, bool) -> bool, p: Publisher) {
    forall n :: n in p.networks ==> ValidNetwork(urlOk, p.networks[n])
  }

  ghost predicate ValidNetwork(urlOk: (string, bool) -> bool, n: Network) {
    forall kind: Kind :: ValidIfPresent(urlOk, ArtifactOf(n, kind), kind)
  }

  predicate ValidIfPresent(urlOk: (string, bool) -> bool, a: Option<Artifact>, kind: Kind) {
    a.Some? ==> ValidArtifact(urlOk, a.value, kind)
  }

  method ValidateNetwork(urlOk: (string, bool) -> bool, n: Network) returns (ok: bool)
    ensures ok <==> ValidNetwork(urlOk, n)
  {
    hide ValidArtifact;
    var k := 0;
    while k < |AllKinds|
      invariant 0 <= k <= |AllKinds|
      invariant forall j :: 0 <= j < k ==> ValidIfPresent(urlOk, ArtifactOf(n, AllKinds[j]), AllKinds[j])
    {
      var a := ArtifactOf(n, AllKinds[k]);
      if a.Some? {
        ok := ValidateArtifact(urlOk, a.value, AllKinds[k]);
        if !ok {
          assert !ValidIfPresent(urlOk, ArtifactOf(n, AllKinds[k]), AllKinds[k]);
          return;
        }
      }
      k := k + 1;
    }
    forall kind: Kind ensures ValidIfPresent(urlOk, ArtifactOf(n, kind), kind) {
      KindIsListed(kind);
    }
    return true;
  }

  lemma KindIsListed(kind: Kind)
    ensures exists j :: 0 <= j < |AllKinds| && AllKinds[j] == kind
  {
    assert AllKinds[0] == ArchiveDump && AllKinds[1] == PrecomputedBlocks;
    assert AllKinds[2] == DaemonConfig && AllKinds[3] == GenesisConfig;
  }

  method ValidatePublisher(urlOk: (string, bool) -> bool, p: Publisher) returns (ok: bool)
    ensures ok <==> ValidPublisher(urlOk, p)
  {
    hide ValidNetwork;
    var todo := p.networks.Keys;
    while todo != {}
      invariant todo <= p.networks.Keys
      invariant forall n :: n in p.networks.Keys - todo ==> ValidNetwork(urlOk, p.networks[n])
      decreases |todo|
    {
      var n :| n in todo;
      todo := todo - {n};
      ok := ValidateNetwork(urlOk, p.networks[n]);
      if !ok {
        return;
      }
    }
    return true;
  }

  method Validate(urlOk: (string, bool) -> bool, c: Config) returns (ok: bool)
    ensures ok <==> ValidConfig(urlOk, c)
    ensures ok ==> c.version == 1 && c.defaultProvider in c.providers
  {
    hide ValidPublisher;
    if c.version != 1 || |c.providers| == 0 || c.defaultProvider !in c.providers {
      return false;
    }
    var todo := c.providers.Keys;
    while todo != {}
      invariant todo <= c.providers.Keys
      invariant forall p :: p in c.providers.Keys - todo ==> ValidPublisher(urlOk, c.providers[p])
      decreases |todo|
    {
      var p :| p in todo;
      todo := todo - {p};
      ok := ValidatePublisher(urlOk, c.providers[p]);
      if !ok {
        return;
      }
    }
    return true;
  }

  /** The provider that a run asks for: the one it names, else the one the overlay
  names, else the one the base names. */
  function Asked(base: Config, over: Config, providerName: string): string {
    if providerName != "" then providerName
    else if over.defaultProvider != "" then over.defaultProvider
    else base.defaultProvider
  }

  predicate Publishes(c: Config, p: string, network: string) {
    p in c.providers && network in c.providers[p].networks
  }

  /** Resolving in an overlay, in terms of its two sides: whose default provider
  counts, which errors there are, and whose artifact is returned. */
  lemma ResolveInMerge(base: Config, over: Config, providerName: string, network: string, kind: Kind)
    ensures var p := Asked(base, over, providerName);
      Resolve(Merged(base, over), providerName, network, kind) ==
        if p !in base.providers && p !in over.providers then Err(UnknownProvider)
        else if !Publishes(base, p, network) && !Publishes(over, p, network) then Err(NothingForNetwork)
        else if Lookup(over, p, network, kind).Some? then Ok(Lookup(over, p, network, kind).value)
        else if Lookup(base, p, network, kind).Some? then Ok(Lookup(base, p, network, kind).value)
        else Err(NoArtifact)
  {
    hide MergedNetworks;
    var p := Asked(base, over, providerName);
    LookupInMerge(base, over, p, network, kind);
    NetworksKeys(base, over, p, network);
  }

  lemma NetworksKeys(base: Config, over: Config, p: string, network: string)
    ensures Publishes(Merged(base, over), p, network) <==> Publishes(base, p, network) || Publishes(over, p, network)
  {
  }

  /** The version, the default provider and the description of a provider that both
  sides have come from the overlay where it gives them. */
  lemma OverlayComesFirst(base: Config, over: Config, p: string)
    ensures over.version != 0 ==> Merged(base, over).version == over.version
    ensures over.version == 0 ==> Merged(base, over).version == base.version
    ensures over.defaultProvider != "" ==> Merged(base, over).defaultProvider == over.defaultProvider
    ensures over.defaultProvider == "" ==> Merged(base, over).defaultProvider == base.defaultProvider
    ensures p in base.providers && p in over.providers && over.providers[p].description != "" ==>
      Merged(base, over).providers[p].description == over.providers[p].description
    ensures p in base.providers && p in over.providers && over.providers[p].description == "" ==>
      Merged(base, over).providers[p].description == base.providers[p].description
    ensures p in base.providers && p !in over.providers ==> Merged(base, over).providers[p] == base.providers[p]
    ensures p !in base.providers && p in over.providers ==> Merged(base, over).providers[p] == over.providers[p]
  {
  }

  /** What Resolve returns from a validated merge is the overlay's artifact or,
  without one, the base's, and it is valid for its kind. */
  lemma ResolvedIsValid(urlOk: (string, bool) -> bool, base: Config, over: Config,
                        providerName: string, network: string, kind: Kind)
    requires ValidConfig(urlOk, Merged(base, over))
    requires Resolve(Merged(base, over), providerName, network, kind).Ok?
    ensures var a := Resolve(Merged(base, over), providerName, network, kind).value;
      var p := Asked(base, over, providerName);
      && Some(a) == Override(Lookup(base, p, network, kind), Lookup(over, p, network, kind))
      && ValidArtifact(urlOk, a, kind)
  {
    hide MergedPublishers, ValidArtifact;
    var c := Merged(base, over);
    var p := Asked(base, over, providerName);
    LookupInMerge(base, over, p, network, kind);
    assert ValidIfPresent(urlOk, ArtifactOf(c.providers[p].networks[network], kind), kind);
  }
}
