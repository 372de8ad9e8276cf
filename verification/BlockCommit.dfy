/** What a committed block does to the ledger, as maps: the parts of a block and how each lands. */
module BlockCommit {
  import opened Prelude
  import opened NamespaceRules
  import opened NamespaceListing
  import opened CadoPaths
  import opened ChainState

  /** The cache without node-local objects. */
  function WithoutInfrastructure<D>(cache: Cache<D>): Cache<D> {
    map p | p in cache && !IsInfrastructurePath(p) :: cache[p]
  }

  /** The staged objects that stay staged once storage has been tried. */
  function Writable<D>(staged: Cache<D>, writes: string -> bool): Cache<D> {
    map p | p in staged && (IsInfrastructurePath(p) || (Parse(p).Some? && writes(p))) :: staged[p]
  }

  /** The staged registrations that storage takes. */
  function Accepted(staged: map<string, NamespaceRecord>, writes: string -> bool): map<string, NamespaceRecord> {
    map s | s in staged && writes(REGISTRY_PREFIX + s) :: staged[s]
  }

  /** The registry objects of some registrations. */
  ghost function RegistryCados<D>(codec: Codec<D>, records: map<string, NamespaceRecord>): Cache<D> {
    map p | p in RegistryPaths(records.Keys) && IsRegistryPath(p) && p[|REGISTRY_PREFIX|..] in records ::
      RegistryBody(codec, p[|REGISTRY_PREFIX|..], records[p[|REGISTRY_PREFIX|..]])
  }

  ghost function RegistryPaths(slugs: set<string>): set<string> {
    set s | s in slugs :: REGISTRY_PREFIX + s
  }

  /** What was staged when a block was committed, and which writes storage took. */
  datatype Block<D> = Block(deletes: seq<string>, registrations: map<string, NamespaceRecord>, staged: Cache<D>, writes: string -> bool)

  /** The committed cache after a block: deletions, then registrations, then objects. */
  ghost function CommittedCache<D>(codec: Codec<D>, cache: Cache<D>, b: Block<D>): Cache<D> {
    cache - Elements(b.deletes)
    + RegistryCados(codec, Accepted(b.registrations, b.writes))
    + WithoutInfrastructure(Writable(b.staged - Elements(b.deletes), b.writes))
  }

  /** A commit: the cache takes the block, and trie and indexes are those of the new cache. */
  ghost predicate Commits<D>(codec: Codec<D>, before: Ledger<D>, b: Block<D>, after: Ledger<D>) {
    Consistent(codec, after) && after.cache == CommittedCache(codec, before.cache, b)
  }

  ghost predicate IsRun<D>(codec: Codec<D>, ledgers: seq<Ledger<D>>, blocks: seq<Block<D>>) {
    && |ledgers| == |blocks| + 1 && Consistent(codec, ledgers[0])
    && forall i :: 0 <= i < |blocks| ==> Commits(codec, ledgers[i], blocks[i], ledgers[i + 1])
  }

  predicate Registrable(slug: string) {
    ValidSlug(slug) && slug !in RESERVED_SLUGS
  }

  /** The scope names and the fixed names cannot be registered. */
  lemma ReservedNames(slug: string)
    requires slug in ["eld", "user", "public", "contract", "test", "other", "pinboard", "admin", "namespace"]
    ensures !Registrable(slug)
  {
  }

  /** The name a registration request stands for, if it can be registered at all. */
  function CanonicalName(input: string): (slug: Option<string>)
    ensures slug.Some? ==> Registrable(slug.value)
  {
    match NormalizeSlug(input)
    case None => None
    case Some(s) => if s in RESERVED_SLUGS then None else Some(s)
  }

  lemma RegistrablePath(slug: string)
    requires Registrable(slug)
    ensures RegistryPath(slug) == Some(REGISTRY_PREFIX + slug) && slug != ""
  {
    CanonicalSlugIsFixed(slug);
  }

  /** What may be staged: no registry objects, and only canonical registrations of free names. */
  ghost predicate StagedSafely<D>(cadoCache: Cache<D>, namespaceCache: map<string, NamespaceRecord>, cache: Cache<D>) {
    && (forall p :: p in cadoCache ==> !IsRegistryPath(p))
    && forall s {:trigger Registrable(s)} :: s in namespaceCache ==>
         Registrable(s) && namespaceCache[s].slug == s && REGISTRY_PREFIX + s !in cache
  }

  lemma StageName<D>(cadoCache: Cache<D>, namespaceCache: map<string, NamespaceRecord>, cache: Cache<D>, record: NamespaceRecord)
    requires StagedSafely(cadoCache, namespaceCache, cache)
    requires Registrable(record.slug) && REGISTRY_PREFIX + record.slug !in cache
    ensures StagedSafely(cadoCache, namespaceCache[record.slug := record], cache)
  {
    var n := namespaceCache[record.slug := record];
    forall s | s in n
      ensures Registrable(s) && n[s].slug == s && REGISTRY_PREFIX + s !in cache
    {
      assert s != record.slug ==> Registrable(s);
    }
  }

  lemma StagedSmaller<D>(cadoCache: Cache<D>, namespaceCache: map<string, NamespaceRecord>, cache: Cache<D>, fewer: Cache<D>, less: Cache<D>)
    requires StagedSafely(cadoCache, namespaceCache, cache) && fewer.Keys <= cadoCache.Keys && less.Keys <= cache.Keys
    ensures StagedSafely(fewer, namespaceCache, less)
  {
    forall s | s in namespaceCache
      ensures Registrable(s) && namespaceCache[s].slug == s && REGISTRY_PREFIX + s !in less
    {
      assert Registrable(s);
    }
  }

  lemma NothingStaged<D>(cache: Cache<D>)
    ensures StagedSafely(map[], map[], cache)
  {
  }

  lemma StagedPut<D>(cadoCache: Cache<D>, namespaceCache: map<string, NamespaceRecord>, cache: Cache<D>, p: string, body: CadoBody<D>)
    requires StagedSafely(cadoCache, namespaceCache, cache)
    ensures StagedSafely(cadoCache[p := body], namespaceCache, cache) <==> !IsRegistryPath(p)
  {
    assert p in cadoCache[p := body];
    if !IsRegistryPath(p) {
      forall s | s in namespaceCache
        ensures Registrable(s) && namespaceCache[s].slug == s && REGISTRY_PREFIX + s !in cache
      {
        assert Registrable(s);
      }
    }
  }

  /** Every record is indexed under its own, canonical slug. */
  ghost predicate OwnSlugs(index: map<string, NamespaceRecord>) {
    forall s {:trigger ValidSlug(s)} :: s in index ==> ValidSlug(s) && index[s].slug == s
  }

  // ----- One step of each pass -----

  lemma DeleteStep<D>(m: Cache<D>, paths: seq<string>, i: nat)
    requires i < |paths|
    ensures m - Elements(paths[..i + 1]) == m - Elements(paths[..i]) - {paths[i]}
  {
    assert paths[..i + 1] == paths[..i] + [paths[i]];
    assert Elements(paths[..i + 1]) == Elements(paths[..i]) + {paths[i]};
  }

  /** Taking one more key of a map into account. */
  lemma TodoStep<K, T>(m: map<K, T>, todo: set<K>, k: K)
    requires k in todo && todo <= m.Keys
    ensures m - (todo - {k}) == (m - todo)[k := m[k]]
  {
  }

  lemma KeepStep<D>(cache: Cache<D>, done: Cache<D>, p: string, body: CadoBody<D>)
    requires p !in done
    ensures cache + WithoutInfrastructure(done[p := body]) ==
            if IsInfrastructurePath(p) then cache + WithoutInfrastructure(done)
            else (cache + WithoutInfrastructure(done))[p := body]
  {
    var c := WithoutInfrastructure(done[p := body]);
    assert c == if IsInfrastructurePath(p) then WithoutInfrastructure(done) else WithoutInfrastructure(done)[p := body];
  }

  lemma RegistryPathTail(s: string)
    requires s != ""
    ensures IsRegistryPath(REGISTRY_PREFIX + s) && (REGISTRY_PREFIX + s)[|REGISTRY_PREFIX|..] == s
  {
    assert (REGISTRY_PREFIX + s)[..|REGISTRY_PREFIX|] == REGISTRY_PREFIX;
  }

  lemma RegistryCadosKeys<D>(codec: Codec<D>, records: map<string, NamespaceRecord>, p: string)
    requires "" !in records
    ensures p in RegistryCados(codec, records) <==> IsRegistryPath(p) && p[|REGISTRY_PREFIX|..] in records
  {
    if IsRegistryPath(p) && p[|REGISTRY_PREFIX|..] in records {
      RegistryPathOf(p);
    }
  }

  lemma RegisterStep<D>(codec: Codec<D>, records: map<string, NamespaceRecord>, s: string, record: NamespaceRecord)
    requires "" !in records && s != "" && s !in records
    ensures RegistryCados(codec, records[s := record]) ==
            RegistryCados(codec, records)[REGISTRY_PREFIX + s := RegistryBody(codec, s, record)]
  {
    var before, after := RegistryCados(codec, records), RegistryCados(codec, records[s := record]);
    RegistryPathTail(s);
    forall p
      ensures p in after <==> p in before || p == REGISTRY_PREFIX + s
    {
      RegistryCadosKeys(codec, records, p);
      RegistryCadosKeys(codec, records[s := record], p);
      if IsRegistryPath(p) && p[|REGISTRY_PREFIX|..] == s {
        RegistryPathOf(p);
      }
    }
    assert forall p :: p in before ==> p[|REGISTRY_PREFIX|..] in records && after[p] == before[p];
  }

  // ----- Objects -----

  lemma EpochsOfMerge<D>(cache: Cache<D>, staged: Cache<D>)
    ensures EpochScan(cache + WithoutInfrastructure(staged)) == EpochScan(cache) + EpochScan(staged)
  {
    var merged := cache + WithoutInfrastructure(staged);
    forall p | p in staged && EpochOfPath(p).Some?
      ensures p in merged
    {
      IndexedPathsAreChainState(p);
    }
    assert forall p :: p in merged ==> p in cache || p in staged;
    assert forall p :: p in cache ==> p in merged;
  }

  /** Merged objects keep the ledger consistent, provided none of them sits in the registry. */
  lemma MergeKeepsConsistency<D>(codec: Codec<D>, l: Ledger<D>, staged: Cache<D>, trie: Trie<D>)
    requires Consistent(codec, l) && forall p :: p in staged ==> !IsRegistryPath(p)
    requires TrieMatches(codec, trie, l.cache + WithoutInfrastructure(staged))
    ensures Consistent(codec, Ledger(l.cache + WithoutInfrastructure(staged), trie,
                                     l.epochIndex + EpochScan(staged), l.namespaceIndex))
  {
    EpochsOfMerge(l.cache, staged);
    RegistryFrame(codec, l.namespaceIndex, l.cache, l.cache + WithoutInfrastructure(staged));
  }

  /** A consistent ledger is the one its cache determines: nodes with equal caches are equal. */
  lemma ConsistentLedgersAgree<D>(codec: Codec<D>, a: Ledger<D>, b: Ledger<D>)
    requires Consistent(codec, a) && Consistent(codec, b) && a.cache == b.cache
    ensures a == b
  {
    TrieUnique(codec, a.trie, b.trie, a.cache);
    RegistryUnique(codec, a.namespaceIndex, b.namespaceIndex, a.cache);
  }

  /**
   Two nodes that start from equal caches and commit the same blocks hold equal ledgers throughout,
   whatever order either iterates its maps in.
   */
  lemma {:induction false} ReplicasAgree<D>(codec: Codec<D>, a: seq<Ledger<D>>, b: seq<Ledger<D>>, blocks: seq<Block<D>>)
    requires IsRun(codec, a, blocks) && IsRun(codec, b, blocks) && a[0].cache == b[0].cache
    ensures a == b
    decreases |blocks|
  {
    ConsistentLedgersAgree(codec, a[0], b[0]);
    if blocks != [] {
      var n := |blocks| - 1;
      ReplicasAgree(codec, a[..n + 1], b[..n + 1], blocks[..n]);
      assert a[n] == a[..n + 1][n] == b[..n + 1][n] == b[n];
      assert Commits(codec, a[n], blocks[n], a[n + 1]) && Commits(codec, b[n], blocks[n], b[n + 1]);
      ConsistentLedgersAgree(codec, a[n + 1], b[n + 1]);
      assert a == a[..n + 1] + [a[n + 1]] && b == b[..n + 1] + [b[n + 1]];
    }
  }

  /** Where a staged object breaks the registry index: exactly at registry paths it does not describe. */
  lemma PutCadoConsistentExactly<D>(codec: Codec<D>, l: Ledger<D>, path: string, body: CadoBody<D>)
    requires codec.Ok() && Consistent(codec, l)
    ensures Consistent(codec, PutCado(codec, l, path, body)) <==>
            !IsRegistryPath(path) || Describes(codec, l.namespaceIndex, path[|REGISTRY_PREFIX|..], body)
  {
    if !IsRegistryPath(path) {
      PutCadoKeepsConsistency(codec, l, path, body);
    } else {
      RegistryPathOf(path);
      IndexedPathsAreChainState(path);
      TrieInsert(codec, l.trie, l.cache, path, body);
      EpochScanInsert(l.cache, path, body);
      RegistryIsNoEpoch(path[|REGISTRY_PREFIX|..]);
      PutAtRegistryExactly(codec, l.namespaceIndex, l.cache, path, body);
    }
  }

  predicate Describes<D>(codec: Codec<D>, index: map<string, NamespaceRecord>, slug: string, body: CadoBody<D>) {
    if body.Immutable? then slug in index && codec.deserialize(body.data) == Some(index[slug]) else slug !in index
  }

  lemma PutAtRegistryExactly<D>(codec: Codec<D>, index: map<string, NamespaceRecord>, cache: Cache<D>, path: string, body: CadoBody<D>)
    requires RegistryMatches(codec, index, cache) && IsRegistryPath(path)
    ensures RegistryMatches(codec, index, cache[path := body]) <==> Describes(codec, index, path[|REGISTRY_PREFIX|..], body)
  {
    var slug, c := path[|REGISTRY_PREFIX|..], cache[path := body];
    RegistryPathOf(path);
    assert path in c && c[path] == body;
    if Describes(codec, index, slug, body) {
      forall s | s in index
        ensures REGISTRY_PREFIX + s in c && c[REGISTRY_PREFIX + s].Immutable?
      {
        if REGISTRY_PREFIX + s == path {
          SplitUnique(REGISTRY_PREFIX, s, REGISTRY_PREFIX, slug);
        }
      }
    }
  }

  // ----- Registrations -----

  /** Registrations entered one after another. */
  function PutAll<D>(codec: Codec<D>, l: Ledger<D>, order: seq<string>, staged: map<string, NamespaceRecord>, writes: string -> bool): Ledger<D>
    requires forall i :: 0 <= i < |order| ==> order[i] in staged
  {
    if order == [] then l
    else
      PutOne(codec, PutAll(codec, l, order[..|order| - 1], staged, writes), order[|order| - 1], staged[order[|order| - 1]], writes)
  }

  function PutOne<D>(codec: Codec<D>, l: Ledger<D>, slug: string, record: NamespaceRecord, writes: string -> bool): Ledger<D> {
    var path := RegistryPath(slug);
    if path.Some? && writes(path.value) then PutNamespace(codec, l, slug, record) else l
  }

  ghost predicate AllRegistrable(staged: map<string, NamespaceRecord>) {
    forall s {:trigger Registrable(s)} :: s in staged ==> Registrable(s)
  }

  lemma PutOneEffect<D>(codec: Codec<D>, l: Ledger<D>, slug: string, record: NamespaceRecord, writes: string -> bool)
    requires Registrable(slug)
    ensures var r := PutOne(codec, l, slug, record, writes);
            if writes(REGISTRY_PREFIX + slug) then
              && r.cache == l.cache[REGISTRY_PREFIX + slug := RegistryBody(codec, slug, record)]
              && r.namespaceIndex == l.namespaceIndex[slug := record]
            else r == l
  {
    RegistrablePath(slug);
  }

  lemma PutOneConsistent<D>(codec: Codec<D>, l: Ledger<D>, slug: string, record: NamespaceRecord, writes: string -> bool)
    requires codec.Ok() && Consistent(codec, l) && Registrable(slug)
    ensures Consistent(codec, PutOne(codec, l, slug, record, writes))
  {
    PutNamespaceKeepsConsistency(codec, l, slug, record);
  }

  lemma {:induction false} PutAllConsistent<D>(codec: Codec<D>, l: Ledger<D>, order: seq<string>, staged: map<string, NamespaceRecord>, writes: string -> bool)
    requires (forall i :: 0 <= i < |order| ==> order[i] in staged) && AllRegistrable(staged)
    requires codec.Ok() && Consistent(codec, l)
    ensures Consistent(codec, PutAll(codec, l, order, staged, writes))
    decreases |order|
  {
    if order != [] {
      var n := |order| - 1;
      PutAllConsistent(codec, l, order[..n], staged, writes);
      assert Registrable(order[n]);
      PutOneConsistent(codec, PutAll(codec, l, order[..n], staged, writes), order[n], staged[order[n]], writes);
    }
  }

  /** The part of a map listed so far. */
  ghost function Listed<T>(m: map<string, T>, order: seq<string>): map<string, T> {
    map k | k in m && k in order :: m[k]
  }

  lemma ListedStep<T>(m: map<string, T>, order: seq<string>)
    requires order != [] && order[|order| - 1] in m
    ensures Listed(m, order) == Listed(m, order[..|order| - 1])[order[|order| - 1] := m[order[|order| - 1]]]
  {
    assert order == order[..|order| - 1] + [order[|order| - 1]];
  }

  lemma AcceptStep(done: map<string, NamespaceRecord>, slug: string, record: NamespaceRecord, writes: string -> bool)
    requires slug !in done
    ensures Accepted(done[slug := record], writes) ==
            if writes(REGISTRY_PREFIX + slug) then Accepted(done, writes)[slug := record] else Accepted(done, writes)
  {
  }

  lemma PutLast<K, T>(m: map<K, T>, n: map<K, T>, k: K, v: T)
    ensures m + n[k := v] == (m + n)[k := v]
  {
  }

  lemma NothingAccepted<D>(codec: Codec<D>, l: Ledger<D>, staged: map<string, NamespaceRecord>, writes: string -> bool)
    ensures var done := Accepted(Listed(staged, []), writes);
            l.cache == l.cache + RegistryCados(codec, done) && l.namespaceIndex == l.namespaceIndex + done
  {
    assert Accepted(Listed(staged, []), writes) == map[];
    assert RegistryCados(codec, map[]) == map[];
  }

  /** Whatever the order, the accepted registrations land in cache and index. */
  lemma {:induction false} PutAllEffect<D>(codec: Codec<D>, l: Ledger<D>, order: seq<string>, staged: map<string, NamespaceRecord>, writes: string -> bool)
    requires (forall i :: 0 <= i < |order| ==> order[i] in staged) && AllRegistrable(staged) && Distinct(order)
    ensures var r, done := PutAll(codec, l, order, staged, writes), Accepted(Listed(staged, order), writes);
            r.cache == l.cache + RegistryCados(codec, done) && r.namespaceIndex == l.namespaceIndex + done
    decreases |order|
  {
    if order == [] {
      NothingAccepted(codec, l, staged, writes);
    } else {
      var n := |order| - 1;
      PutAllEffect(codec, l, order[..n], staged, writes);
      AcceptedStep(order, staged, writes);
      var prev := PutAll(codec, l, order[..n], staged, writes);
      assert PutAll(codec, l, order, staged, writes) == PutOne(codec, prev, order[n], staged[order[n]], writes);
      EffectStep(codec, l, prev, Accepted(Listed(staged, order[..n]), writes), order[n], staged[order[n]], writes);
    }
  }

  lemma AcceptedStep(order: seq<string>, staged: map<string, NamespaceRecord>, writes: string -> bool)
    requires order != [] && (forall i :: 0 <= i < |order| ==> order[i] in staged) && AllRegistrable(staged) && Distinct(order)
    ensures var slug := order[|order| - 1];
            var done := Accepted(Listed(staged, order[..|order| - 1]), writes);
            && Registrable(slug) && slug !in done && "" !in done
            && Accepted(Listed(staged, order), writes) ==
               if writes(REGISTRY_PREFIX + slug) then done[slug := staged[slug]] else done
  {
    var slug, before := order[|order| - 1], Listed(staged, order[..|order| - 1]);
    ListedStep(staged, order);
    assert Registrable(slug) && !Registrable("");
    assert slug !in before;
    AcceptStep(before, slug, staged[slug], writes);
  }

  lemma EffectStep<D>(codec: Codec<D>, l: Ledger<D>, prev: Ledger<D>, done: map<string, NamespaceRecord>,
                      slug: string, record: NamespaceRecord, writes: string -> bool)
    requires Registrable(slug) && slug !in done && "" !in done
    requires prev.cache == l.cache + RegistryCados(codec, done) && prev.namespaceIndex == l.namespaceIndex + done
    ensures var r, next := PutOne(codec, prev, slug, record, writes), if writes(REGISTRY_PREFIX + slug) then done[slug := record] else done;
            r.cache == l.cache + RegistryCados(codec, next) && r.namespaceIndex == l.namespaceIndex + next
  {
    PutOneEffect(codec, prev, slug, record, writes);
    if writes(REGISTRY_PREFIX + slug) {
      RegistrablePath(slug);
      RegisterStep(codec, done, slug, record);
      PutLast(l.cache, RegistryCados(codec, done), REGISTRY_PREFIX + slug, RegistryBody(codec, slug, record));
      PutLast(l.namespaceIndex, done, slug, record);
    }
  }

  // ----- What the trie says about names -----

  /** The registry path of a name is the one the typed constructor builds. */
  lemma RegistryPathIsConstructed(slug: string)
    requires Registrable(slug)
    ensures New(Namespace, NamespaceSlug(slug)).Some? && New(Namespace, NamespaceSlug(slug)).value.path == "/@eld/namespace/" + slug
    ensures RegistryPath(slug) == Some(New(Namespace, NamespaceSlug(slug)).value.path)
  {
    RegistrablePath(slug);
    assert REGISTRY_PREFIX == "/@eld/namespace/";
    assert Print(SCOPE_ELD_ROOT, Namespace, slug) == REGISTRY_PREFIX + slug;
  }

  /** The object of a registered name: immutable, holding the record, under the digest of its bytes. */
  ghost predicate HoldsRecord<D>(codec: Codec<D>, l: Ledger<D>, slug: string, record: NamespaceRecord) {
    var path, data := REGISTRY_PREFIX + slug, codec.serialize(record);
    && path in l.cache && l.cache[path] == Immutable(codec.sha(data), data, Metadata("namespace", slug))
    && codec.Key(path) in l.trie && l.trie[codec.Key(path)] == codec.sha(data)
  }

  /** After a commit every accepted registration is in the cache, and its record's digest in the trie. */
  lemma AcceptedAreHeld<D>(codec: Codec<D>, before: Ledger<D>, b: Block<D>, after: Ledger<D>, slug: string)
    requires Commits(codec, before, b, after) && StagedSafely(b.staged, b.registrations, before.cache)
    requires slug in b.registrations && b.writes(REGISTRY_PREFIX + slug)
    ensures HoldsRecord(codec, after, slug, b.registrations[slug])
  {
    var path, accepted := REGISTRY_PREFIX + slug, Accepted(b.registrations, b.writes);
    assert Registrable(slug) && !Registrable("");
    RegistrablePath(slug);
    RegistryPathTail(slug);
    assert "" !in accepted;
    RegistryCadosKeys(codec, accepted, path);
    assert path !in b.staged;
    assert after.cache[path] == RegistryBody(codec, slug, b.registrations[slug]);
    assert codec.Key(path) in after.trie;
  }

  /** Registry objects are immutable and carry the digest of their bytes. */
  ghost predicate RegistryHashed<D>(codec: Codec<D>, cache: Cache<D>) {
    forall p {:trigger IsRegistryPath(p)} :: p in cache && IsRegistryPath(p) ==> cache[p].Immutable? && cache[p].hash == codec.sha(cache[p].data)
  }

  lemma CommitKeepsRegistryHashed<D>(codec: Codec<D>, cache: Cache<D>, b: Block<D>)
    requires RegistryHashed(codec, cache) && forall p :: p in b.staged ==> !IsRegistryPath(p)
    ensures RegistryHashed(codec, CommittedCache(codec, cache, b))
  {
    var after := CommittedCache(codec, cache, b);
    forall p | p in after && IsRegistryPath(p)
      ensures after[p].Immutable? && after[p].hash == codec.sha(after[p].data)
    {
      assert p !in b.staged;
    }
  }

  /** No two different records of one name share a digest. */
  ghost predicate NoRecordCollision<D>(codec: Codec<D>, a: Cache<D>, b: Cache<D>) {
    forall p {:trigger IsRegistryPath(p)} :: p in a && p in b && IsRegistryPath(p) && codec.sha(a[p].data) == codec.sha(b[p].data) ==> a[p].data == b[p].data
  }

  /** The trie, hence the state root, commits to the registry: equal tries mean equal records for every name. */
  lemma TrieBindsRegistry<D>(codec: Codec<D>, a: Ledger<D>, b: Ledger<D>)
    requires codec.Ok() && Consistent(codec, a) && Consistent(codec, b)
    requires RegistryHashed(codec, a.cache) && RegistryHashed(codec, b.cache) && NoRecordCollision(codec, a.cache, b.cache)
    requires a.trie == b.trie
    ensures a.namespaceIndex == b.namespaceIndex
  {
    TriesEqualExactly(codec, a.trie, a.cache, b.trie, b.cache);
    assert RegistryMatches(codec, a.namespaceIndex, b.cache) by {
      SameRecords(codec, a, b);
    }
    RegistryUnique(codec, a.namespaceIndex, b.namespaceIndex, b.cache);
  }

  lemma SameRecords<D>(codec: Codec<D>, a: Ledger<D>, b: Ledger<D>)
    requires Consistent(codec, a) && RegistryHashed(codec, a.cache) && RegistryHashed(codec, b.cache)
    requires NoRecordCollision(codec, a.cache, b.cache)
    requires a.cache.Keys == b.cache.Keys && forall p :: p in a.cache ==> a.cache[p].ContentHash() == b.cache[p].ContentHash()
    ensures RegistryMatches(codec, a.namespaceIndex, b.cache)
  {
    var index := a.namespaceIndex;
    forall p | p in b.cache && IsRegistryPath(p) && b.cache[p].Immutable?
      ensures p[|REGISTRY_PREFIX|..] in index && codec.deserialize(b.cache[p].data) == Some(index[p[|REGISTRY_PREFIX|..]])
    {
      assert p in a.cache && a.cache[p].data == b.cache[p].data;
    }
    forall slug | slug in index
      ensures slug != "" && REGISTRY_PREFIX + slug in b.cache && b.cache[REGISTRY_PREFIX + slug].Immutable?
    {
      assert REGISTRY_PREFIX + slug in a.cache;
      RegistryPathTail(slug);
    }
  }
}
