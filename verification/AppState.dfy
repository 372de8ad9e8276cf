/** The node's state: staging during a block, commit, app hash, and epoch snapshots. */
module AppState {
  import opened Prelude
  import opened NamespaceRules
  import opened NamespaceListing
  import Hex
  import opened CadoPaths
  import opened ChainState
  import opened BlockCommit
  import opened AppHash

  datatype Snapshot<D, V, C, A> = Snapshot(
    blockHeight: int64, appHash: D, chainId: string, currentEpoch: int64, cache: Cache<D>, stateTrieRoot: D,
    epochIndex: set<int>, namespaceIndex: map<string, NamespaceRecord>,
    validators: seq<V>, activeValidators: seq<V>, capacityValidators: seq<C>, activeCapacityValidator: Option<A>)

  datatype RestoreError = TipRootMismatch | SnapshotRootMismatch

  /** The committed part of a node's state. */
  datatype Committed<D, V, C, A> = Committed(
    appHash: Option<D>, chainId: string, blockHeight: int64, currentEpoch: int64, ledger: Ledger<D>,
    validators: seq<V>, activeValidators: seq<V>, capacityValidators: seq<C>, activeCapacityValidator: Option<A>,
    failedProofCounts: Counts)
  {
    ghost function HashedPart(codec: Codec<D>): Hashed<D, V, C, A> {
      Hashed(blockHeight, currentEpoch, codec.trieRoot(ledger.trie), validators, activeValidators,
             capacityValidators, activeCapacityValidator, failedProofCounts)
    }
  }

  ghost function CalculatedHash<D(!new), V, C, A>(codec: Codec<D>, layout: Layout<D, V, C, A>, state: Committed<D, V, C, A>): D
    requires layout.Ok()
  {
    codec.sha(Preimage(layout, state.HashedPart(codec)))
  }

  function SnapshotOf<D, V, C, A>(codec: Codec<D>, state: Committed<D, V, C, A>): Snapshot<D, V, C, A>
    requires state.appHash.Some?
  {
    Snapshot(state.blockHeight, state.appHash.value, state.chainId, state.currentEpoch,
             WithoutInfrastructure(state.ledger.cache), codec.trieRoot(state.ledger.trie),
             state.ledger.epochIndex, state.ledger.namespaceIndex,
             state.validators, state.activeValidators, state.capacityValidators, state.activeCapacityValidator)
  }

  /** `after` is `before` with every snapshotted field replaced and the trie rebuilt from the cache. */
  ghost predicate Restored<D, V, C, A>(codec: Codec<D>, s: Snapshot<D, V, C, A>, before: Committed<D, V, C, A>,
                                       after: Committed<D, V, C, A>) {
    && after == Committed(
                  Some(s.appHash), s.chainId, s.blockHeight, s.currentEpoch,
                  Ledger(WithoutInfrastructure(s.cache), after.ledger.trie, s.epochIndex, s.namespaceIndex),
                  s.validators, s.activeValidators, s.capacityValidators, s.activeCapacityValidator,
                  before.failedProofCounts)
    && TrieMatches(codec, after.ledger.trie, after.ledger.cache)
  }

  /** The sender's account after paying a fee; its original digest is passed on. */
  function DebitedAccount<D>(codec: Codec<D>, owner: Address, debit: (D, seq<byte>)): CadoBody<D> {
    UpdatedMutable(codec.sha, debit.0, debit.1, Metadata("account", Hex.AddressText(owner)))
  }

  /** A registration takes effect in the next block; the height is cast to an unsigned word. */
  function NewRecord(slug: string, owner: Address, blockHeight: int64): NamespaceRecord {
    NamespaceRecord(slug, owner, (blockHeight + 1) % TWO_64)
  }

  class AppState<D(==, !new), V, C, A> {
    const codec: Codec<D>
    const layout: Layout<D, V, C, A>

    var appHash: Option<D>
    var chainId: string
    var blockHeight: int64
    var currentEpoch: int64
    var cache: Cache<D>
    var trie: Trie<D>
    var epochIndex: set<int>
    var namespaceIndex: map<string, NamespaceRecord>
    var validators: seq<V>
    var activeValidators: seq<V>
    var capacityValidators: seq<C>
    var activeCapacityValidator: Option<A>
    var failedProofCounts: Counts

    // staged during a block
    var cadoCache: Cache<D>
    var toDelete: seq<string>
    var namespaceCache: map<string, NamespaceRecord>

    ghost function LedgerNow(): Ledger<D>
      reads this
    {
      Ledger(cache, trie, epochIndex, namespaceIndex)
    }

    ghost function Value(): Committed<D, V, C, A>
      reads this
    {
      Committed(appHash, chainId, blockHeight, currentEpoch, LedgerNow(), validators, activeValidators,
                capacityValidators, activeCapacityValidator, failedProofCounts)
    }

    ghost predicate Valid()
      reads this
    {
      && codec.Ok() && Consistent(codec, LedgerNow()) && OwnSlugs(namespaceIndex)
      && StagedSafely(cadoCache, namespaceCache, cache)
    }

    /** A fresh node. */
    constructor (codec: Codec<D>, layout: Layout<D, V, C, A>)
      requires codec.Ok()
      ensures this.codec == codec && this.layout == layout && Valid()
      ensures Value() == Committed(None, "", 0, 0, Ledger(map[], map[], {}, map[]), [], [], [], None, map[])
      ensures cadoCache == map[] && toDelete == [] && namespaceCache == map[]
    {
      this.codec, this.layout := codec, layout;
      appHash, chainId, blockHeight, currentEpoch := None, "", 0, 0;
      cache, trie, epochIndex, namespaceIndex := map[], map[], {}, map[];
      validators, activeValidators, capacityValidators, activeCapacityValidator := [], [], [], None;
      failedProofCounts := map[];
      cadoCache, toDelete, namespaceCache := map[], [], map[];
    }

    // ----- App hash -----

    method CalculateAppHash() returns (hash: D)
      requires layout.Ok()
      ensures hash == CalculatedHash(codec, layout, Value())
    {
      var bytes := Int64Word(blockHeight) + Int64Word(currentEpoch) + Prefixed(layout.digest(codec.trieRoot(trie)));
      bytes := Feed(layout.validator, validators, bytes);
      bytes := Feed(layout.validator, activeValidators, bytes);
      bytes := Feed(layout.provider, capacityValidators, bytes);
      ghost var lists := bytes;
      if activeCapacityValidator.Some? {
        bytes := bytes + layout.challenger(activeCapacityValidator.value);
      }
      FedInOrder(layout, Value().HashedPart(codec), lists, bytes);
      bytes := FeedCounts(layout, failedProofCounts, bytes);
      hash := codec.sha(bytes);
    }

    // ----- Reading the indexes -----

    /** Committed epochs and, if a block is open, the staged ones: by index or, when that is empty, by scan. */
    method CollectEpochNumbers(current: Option<AppState<D, V, C, A>>) returns (epochs: set<int>)
      ensures var staged := if current.Some? then EpochScan(current.value.cadoCache) else {};
              && epochs == (if epochIndex == {} && cache != map[] then EpochScan(cache) else epochIndex) + staged
              && (Valid() ==> epochs == EpochScan(cache) + staged)
      ensures Valid() ==> forall e :: e in epochs <==>
                HasEpochRecord(cache, e) || (current.Some? && HasEpochRecord(current.value.cadoCache, e))
    {
      if epochIndex == {} && cache != map[] {
        epochs := ScanEpochs(cache);
      } else {
        epochs := epochIndex;
      }
      if current.Some? {
        var staged := ScanEpochs(current.value.cadoCache);
        epochs := epochs + staged;
      }
      CollectedExactly(cache, if current.Some? then current.value.cadoCache else map[]);
    }

    /** Committed registrations overlaid with the staged ones, one record per slug. */
    method CollectNamespaceRecords(current: Option<AppState<D, V, C, A>>) returns (r: Result<seq<NamespaceRecord>, ()>)
      requires Valid()
      requires current.Some? ==> current.value.Valid()
      ensures r.Ok? && UniqueSlugs(r.value) && forall record :: record in r.value ==> ValidSlug(record.slug)
      ensures var bySlug := if current.Some? then namespaceIndex + current.value.namespaceCache else namespaceIndex;
              forall record :: record in r.value <==> record.slug in bySlug && bySlug[record.slug] == record
    {
      var bySlug := namespaceIndex;
      if namespaceIndex == map[] && cache != map[] {
        var scanned := ScanRegistry(codec, cache);
        EveryRecordDecodes(codec, namespaceIndex, cache);
        RegistryUnique(codec, namespaceIndex, scanned.value, cache);
        bySlug := scanned.value;
      }
      if current.Some? {
        StagedSlugs(bySlug, current.value.cadoCache, current.value.namespaceCache, current.value.cache);
        bySlug := bySlug + current.value.namespaceCache;
      }
      var records := Values(bySlug);
      r := Ok(records);
    }

    /** Both indexes rebuilt from the cache are the ones kept along the way. */
    method RebuildIndexes() returns (ok: bool)
      requires Valid()
      modifies this`epochIndex, this`namespaceIndex
      ensures ok && epochIndex == old(epochIndex) && namespaceIndex == old(namespaceIndex)
    {
      epochIndex := ScanEpochs(cache);
      var scanned := ScanRegistry(codec, cache);
      EveryRecordDecodes(codec, namespaceIndex, cache);
      RegistryUnique(codec, namespaceIndex, scanned.value, cache);
      namespaceIndex := scanned.value;
      ok := true;
    }

    // ----- Snapshots -----

    /** Fails only while the app hash is unset. */
    method TakeSnapshot() returns (r: Result<Snapshot<D, V, C, A>, ()>)
      ensures r == if appHash.None? then Err(()) else Ok(SnapshotOf(codec, Value()))
      ensures appHash.Some? ==>
                && r.value.blockHeight == blockHeight && r.value.appHash == appHash.value && r.value.chainId == chainId
                && r.value.currentEpoch == currentEpoch && r.value.stateTrieRoot == codec.trieRoot(trie)
                && r.value.epochIndex == epochIndex && r.value.namespaceIndex == namespaceIndex
                && r.value.validators == validators && r.value.activeValidators == activeValidators
                && r.value.capacityValidators == capacityValidators && r.value.activeCapacityValidator == activeCapacityValidator
    {
      if appHash.None? {
        return Err(());
      }
      var kept := FilterInfrastructure(cache);
      r := Ok(Snapshot(blockHeight, appHash.value, chainId, currentEpoch, kept, codec.trieRoot(trie), epochIndex,
                       namespaceIndex, validators, activeValidators, capacityValidators, activeCapacityValidator));
    }

    method RestoreLedger(s: Snapshot<D, V, C, A>)
      requires codec.Ok()
      modifies this`cache, this`trie, this`epochIndex, this`namespaceIndex
      ensures cache == WithoutInfrastructure(s.cache) && TrieMatches(codec, trie, cache)
      ensures epochIndex == s.epochIndex && namespaceIndex == s.namespaceIndex
    {
      cache := FilterInfrastructure(s.cache);
      epochIndex, namespaceIndex := s.epochIndex, s.namespaceIndex;
      trie := RebuildTrie(codec, cache);
    }

    method RestoreHeader(s: Snapshot<D, V, C, A>)
      modifies this`appHash, this`chainId, this`blockHeight, this`currentEpoch
      ensures appHash == Some(s.appHash) && chainId == s.chainId
      ensures blockHeight == s.blockHeight && currentEpoch == s.currentEpoch
    {
      appHash, chainId, blockHeight, currentEpoch := Some(s.appHash), s.chainId, s.blockHeight, s.currentEpoch;
    }

    method RestoreValidators(s: Snapshot<D, V, C, A>)
      modifies this`validators, this`activeValidators, this`capacityValidators, this`activeCapacityValidator
      ensures validators == s.validators && activeValidators == s.activeValidators
      ensures capacityValidators == s.capacityValidators && activeCapacityValidator == s.activeCapacityValidator
    {
      validators, activeValidators := s.validators, s.activeValidators;
      capacityValidators, activeCapacityValidator := s.capacityValidators, s.activeCapacityValidator;
    }

    method ReplaceFields(s: Snapshot<D, V, C, A>)
      requires codec.Ok()
      modifies this`appHash, this`chainId, this`blockHeight, this`currentEpoch, this`cache, this`trie, this`epochIndex,
               this`namespaceIndex, this`validators, this`activeValidators, this`capacityValidators, this`activeCapacityValidator
      ensures Restored(codec, s, old(Value()), Value())
    {
      RestoreHeader(s);
      RestoreValidators(s);
      RestoreLedger(s);
      RestoredFields(codec, s, old(Value()), Value());
    }

    /** All fields are replaced before the roots are compared, so a refused snapshot leaves them replaced. */
    method ApplySnapshot(s: Snapshot<D, V, C, A>, tipRoot: D) returns (r: Result<(), RestoreError>)
      requires codec.Ok()
      modifies this`appHash, this`chainId, this`blockHeight, this`currentEpoch, this`cache, this`trie, this`epochIndex,
               this`namespaceIndex, this`validators, this`activeValidators, this`capacityValidators, this`activeCapacityValidator
      ensures Restored(codec, s, old(Value()), Value())
      ensures r.Ok? <==> RestoreVerdict(codec, s, trie, tipRoot)
      ensures r == Err(TipRootMismatch) <==> codec.trieRoot(trie) != tipRoot
      ensures r == Err(SnapshotRootMismatch) <==> codec.trieRoot(trie) == tipRoot && s.stateTrieRoot != tipRoot
      ensures appHash == Some(s.appHash) && chainId == s.chainId && blockHeight == s.blockHeight && currentEpoch == s.currentEpoch
      ensures validators == s.validators && activeValidators == s.activeValidators
      ensures capacityValidators == s.capacityValidators && activeCapacityValidator == s.activeCapacityValidator
      ensures epochIndex == s.epochIndex && namespaceIndex == s.namespaceIndex
    {
      ReplaceFields(s);
      if codec.trieRoot(trie) != tipRoot {
        return Err(TipRootMismatch);
      }
      if s.stateTrieRoot != tipRoot {
        return Err(SnapshotRootMismatch);
      }
      r := Ok(());
    }

    // ----- Staging -----

    /** Stages an object; node-local types are refused. Staging is safe except at registry paths. */
    method UpdateCadoCache(path: CadoPath, body: CadoBody<D>)
      requires Valid()
      modifies this`cadoCache
      ensures cadoCache == if IsInfrastructureType(path.type_) then old(cadoCache) else old(cadoCache)[path.path := body]
      ensures Valid() <==> IsInfrastructureType(path.type_) || !IsRegistryPath(path.path)
    {
      if IsInfrastructureType(path.type_) {
        return;
      }
      StagedPut(cadoCache, namespaceCache, cache, path.path, body);
      cadoCache := cadoCache[path.path := body];
    }

    /**
     Stages the registration of a name that is well formed, not reserved and free, together with the
     sender's debited account. `debit` is the account's hash and new data; there is none when the fee
     is zero, the account unknown or its balance too small.
     */
    method AddNamespace(input: string, owner: Address, debit: Option<(D, seq<byte>)>) returns (ok: bool)
      requires Valid()
      modifies this`namespaceCache, this`cadoCache
      ensures Valid()
      ensures ok <==> debit.Some? && CanonicalName(input).Some? && CanonicalName(input).value !in old(namespaceCache)
                      && REGISTRY_PREFIX + CanonicalName(input).value !in cache
      ensures ok ==> namespaceCache == old(namespaceCache)[CanonicalName(input).value := NewRecord(CanonicalName(input).value, owner, blockHeight)]
      ensures ok ==> cadoCache == old(cadoCache)[AccountPath(owner) := DebitedAccount(codec, owner, debit.value)]
      ensures ok ==> var record := namespaceCache[CanonicalName(input).value];
                record.slug == CanonicalName(input).value && record.owner == owner && (blockHeight >= 0 ==> record.height == blockHeight + 1)
      ensures ok ==> var account := cadoCache[AccountPath(owner)];
                account.Mutable? && account.hash == debit.value.0 && account.data == debit.value.1 && account.latestHash == codec.sha(account.data)
      ensures !ok ==> namespaceCache == old(namespaceCache) && cadoCache == old(cadoCache)
    {
      var name := CanonicalName(input);
      if name.None? || name.value in namespaceCache || REGISTRY_PREFIX + name.value in cache || debit.None? {
        return false;
      }
      DebitAccount(owner, debit.value);
      RecordName(name.value, owner);
      ok := true;
    }

    method DebitAccount(owner: Address, debit: (D, seq<byte>))
      requires Valid()
      modifies this`cadoCache
      ensures Valid() && cadoCache == old(cadoCache)[AccountPath(owner) := DebitedAccount(codec, owner, debit)]
    {
      AccountPathFacts(owner);
      StagedPut(cadoCache, namespaceCache, cache, AccountPath(owner), DebitedAccount(codec, owner, debit));
      cadoCache := cadoCache[AccountPath(owner) := DebitedAccount(codec, owner, debit)];
    }

    method RecordName(slug: string, owner: Address)
      requires Valid() && Registrable(slug) && REGISTRY_PREFIX + slug !in cache
      modifies this`namespaceCache
      ensures Valid()
      ensures namespaceCache == old(namespaceCache)[slug := NewRecord(slug, owner, blockHeight)]
    {
      var record := NewRecord(slug, owner, blockHeight);
      StageName(cadoCache, namespaceCache, cache, record);
      namespaceCache := namespaceCache[slug := record];
    }

    // ----- Commit -----

    method DeleteOne(path: string)
      requires Valid() && IsSystemDeletable(path)
      modifies this`cadoCache, this`cache, this`trie
      ensures Valid() && cache == old(cache) - {path} && cadoCache == old(cadoCache) - {path}
    {
      DeleteKeepsConsistency(codec, LedgerNow(), path);
      StagedSmaller(cadoCache, namespaceCache, cache, cadoCache - {path}, cache - {path});
      cadoCache := cadoCache - {path};
      cache := cache - {path};
      var key := PathToNibbles(codec.utf8(path));
      trie := trie - {key};
    }

    method ApplyDeletes()
      requires Valid() && forall i :: 0 <= i < |toDelete| ==> IsSystemDeletable(toDelete[i])
      modifies this`cadoCache, this`cache, this`trie, this`toDelete
      ensures Valid() && toDelete == []
      ensures cache == old(cache) - Elements(old(toDelete)) && cadoCache == old(cadoCache) - Elements(old(toDelete))
    {
      ghost var paths := toDelete;
      assert cache - Elements(paths[..0]) == cache && cadoCache - Elements(paths[..0]) == cadoCache;
      for i := 0 to |toDelete|
        invariant Valid() && toDelete == paths
        invariant cache == old(cache) - Elements(paths[..i]) && cadoCache == old(cadoCache) - Elements(paths[..i])
      {
        DeleteStep(old(cache), paths, i);
        DeleteStep(old(cadoCache), paths, i);
        DeleteOne(toDelete[i]);
      }
      assert paths[..|paths|] == paths;
      toDelete := [];
    }

    /** Objects that do not parse or that storage refuses leave the block. */
    method DropFailed(writes: string -> bool)
      requires Valid()
      modifies this`cadoCache
      ensures Valid() && cadoCache == Writable(old(cadoCache), writes)
    {
      var failed, todo := {}, cadoCache.Keys;
      while todo != {}
        invariant todo <= cadoCache.Keys
        invariant forall p :: p in failed <==>
          p in cadoCache && p !in todo && !IsInfrastructurePath(p) && !(Parse(p).Some? && writes(p))
        decreases |todo|
      {
        var path :| path in todo;
        if !IsInfrastructurePath(path) && (Parse(path).None? || !writes(path)) {
          failed := failed + {path};
        }
        todo := todo - {path};
      }
      StagedSmaller(cadoCache, namespaceCache, cache, cadoCache - failed, cache);
      cadoCache := cadoCache - failed;
    }

    method RegisterOne(slug: string, record: NamespaceRecord, writes: string -> bool)
      modifies this`cache, this`trie, this`namespaceIndex
      ensures LedgerNow() == PutOne(codec, old(LedgerNow()), slug, record, writes)
    {
      var path := RegistryPath(slug);
      if path.None? || !writes(path.value) {
        return;
      }
      var body := RegistryBody(codec, slug, record);
      var key := PathToNibbles(codec.utf8(path.value));
      cache := cache[path.value := body];
      trie := trie[key := body.ContentHash()];
      namespaceIndex := namespaceIndex[slug := record];
    }

    /** Registrations are entered one by one, in some order. */
    method RegisterNamespaces(writes: string -> bool) returns (ghost order: seq<string>)
      modifies this`cache, this`trie, this`namespaceIndex, this`namespaceCache
      ensures namespaceCache == map[] && Distinct(order)
      ensures forall s :: s in order <==> s in old(namespaceCache)
      ensures LedgerNow() == PutAll(codec, old(LedgerNow()), order, old(namespaceCache), writes)
    {
      order := [];
      var todo := namespaceCache.Keys;
      while todo != {}
        invariant todo <= namespaceCache.Keys && namespaceCache == old(namespaceCache)
        invariant Distinct(order) && forall s :: s in order <==> s in namespaceCache && s !in todo
        invariant LedgerNow() == PutAll(codec, old(LedgerNow()), order, namespaceCache, writes)
        decreases |todo|
      {
        var slug :| slug in todo;
        RegisterOne(slug, namespaceCache[slug], writes);
        assert (order + [slug])[..|order|] == order;
        order := order + [slug];
        todo := todo - {slug};
      }
      namespaceCache := map[];
    }

    method EnterRegistrations(writes: string -> bool)
      requires codec.Ok() && Consistent(codec, LedgerNow()) && AllRegistrable(namespaceCache)
      modifies this`cache, this`trie, this`namespaceIndex, this`namespaceCache
      ensures Consistent(codec, LedgerNow()) && namespaceCache == map[]
      ensures cache == old(cache) + RegistryCados(codec, Accepted(old(namespaceCache), writes))
      ensures namespaceIndex == old(namespaceIndex) + Accepted(old(namespaceCache), writes)
    {
      ghost var before, staged := LedgerNow(), namespaceCache;
      ghost var order := RegisterNamespaces(writes);
      PutAllConsistent(codec, before, order, staged, writes);
      PutAllEffect(codec, before, order, staged, writes);
      assert Listed(staged, order) == staged;
    }

    /** First pass: the cache. */
    method MergeIntoCache()
      modifies this`cache
      ensures cache == old(cache) + WithoutInfrastructure(cadoCache)
    {
      var todo := cadoCache.Keys;
      assert cadoCache - todo == map[];
      while todo != {}
        invariant todo <= cadoCache.Keys && cache == old(cache) + WithoutInfrastructure(cadoCache - todo)
        decreases |todo|
      {
        var path :| path in todo;
        TodoStep(cadoCache, todo, path);
        KeepStep(old(cache), cadoCache - todo, path, cadoCache[path]);
        if !IsInfrastructurePath(path) {
          cache := cache[path := cadoCache[path]];
        }
        todo := todo - {path};
      }
      assert cadoCache - {} == cadoCache;
    }

    /** Second pass: the epoch index. */
    method IndexEpochs()
      modifies this`epochIndex
      ensures epochIndex == old(epochIndex) + EpochScan(cadoCache)
    {
      var todo := cadoCache.Keys;
      assert cadoCache - todo == map[];
      while todo != {}
        invariant todo <= cadoCache.Keys && epochIndex == old(epochIndex) + EpochScan(cadoCache - todo)
        decreases |todo|
      {
        var path :| path in todo;
        TodoStep(cadoCache, todo, path);
        EpochScanInsert(cadoCache - todo, path, cadoCache[path]);
        var epoch := EpochOfPath(path);
        if epoch.Some? {
          epochIndex := epochIndex + {epoch.value};
        }
        todo := todo - {path};
      }
      assert cadoCache - {} == cadoCache;
    }

    /** Third pass: the trie. */
    method InsertIntoTrie(ghost before: Cache<D>)
      requires codec.Ok() && TrieMatches(codec, trie, before)
      modifies this`trie
      ensures TrieMatches(codec, trie, before + WithoutInfrastructure(cadoCache))
    {
      var todo := cadoCache.Keys;
      assert cadoCache - todo == map[] && before + WithoutInfrastructure(map[]) == before;
      while todo != {}
        invariant todo <= cadoCache.Keys && TrieMatches(codec, trie, before + WithoutInfrastructure(cadoCache - todo))
        decreases |todo|
      {
        var path :| path in todo;
        InsertStep(codec, trie, before, cadoCache, todo, path);
        if !IsInfrastructurePath(path) {
          var key := PathToNibbles(codec.utf8(path));
          trie := trie[key := cadoCache[path].ContentHash()];
        }
        todo := todo - {path};
      }
      assert cadoCache - {} == cadoCache;
    }

    method DeletesAllowed(deletes: string -> bool) returns (ok: bool)
      ensures ok <==> forall i :: 0 <= i < |toDelete| ==> IsSystemDeletable(toDelete[i]) && deletes(toDelete[i])
    {
      for i := 0 to |toDelete|
        invariant forall j :: 0 <= j < i ==> IsSystemDeletable(toDelete[j]) && deletes(toDelete[j])
      {
        if !(IsSystemDeletable(toDelete[i]) && deletes(toDelete[i])) {
          return false;
        }
      }
      ok := true;
    }

    method MergeStaged()
      requires codec.Ok() && Consistent(codec, LedgerNow()) && forall p :: p in cadoCache ==> !IsRegistryPath(p)
      modifies this`cadoCache, this`cache, this`trie, this`epochIndex
      ensures Consistent(codec, LedgerNow()) && cadoCache == map[]
      ensures cache == old(cache) + WithoutInfrastructure(old(cadoCache))
    {
      ghost var before := LedgerNow();
      MergeIntoCache();
      IndexEpochs();
      InsertIntoTrie(before.cache);
      MergeKeepsConsistency(codec, before, cadoCache, trie);
      cadoCache := map[];
    }

    method FlushStaged(writes: string -> bool)
      requires Valid()
      modifies this`cadoCache, this`cache, this`trie, this`namespaceIndex, this`namespaceCache, this`epochIndex
      ensures Valid() && cadoCache == map[] && namespaceCache == map[]
      ensures cache == old(cache) + RegistryCados(codec, Accepted(old(namespaceCache), writes))
                       + WithoutInfrastructure(Writable(old(cadoCache), writes))
      ensures namespaceIndex == old(namespaceIndex) + Accepted(old(namespaceCache), writes)
      ensures forall s :: s in old(namespaceIndex) ==> s in namespaceIndex && namespaceIndex[s] == old(namespaceIndex)[s]
    {
      NamesStayOwned(codec, LedgerNow(), cadoCache, namespaceCache, writes);
      DropFailed(writes);
      EnterRegistrations(writes);
      MergeStaged();
      NothingStaged(cache);
    }

    /**
     Commits the block. It is all or nothing: without an app hash, with a deletion that is not allowed
     or that storage refuses, or when the pinboard writes or the storage transaction fail (`rest` is
     false; the process then ends), nothing is committed. Otherwise the cache is updated and trie and
     indexes, although maintained incrementally, are those of the new cache.
     */
    method CommitBlock(deletes: string -> bool, writes: string -> bool, rest: bool) returns (ok: bool)
      requires Valid()
      modifies this`cadoCache, this`cache, this`trie, this`toDelete, this`namespaceIndex, this`namespaceCache, this`epochIndex
      ensures Valid()
      ensures ok <==> rest && appHash.Some? && forall i :: 0 <= i < |old(toDelete)| ==> IsSystemDeletable(old(toDelete)[i]) && deletes(old(toDelete)[i])
      ensures !ok ==> LedgerNow() == old(LedgerNow()) && cadoCache == old(cadoCache) && toDelete == old(toDelete) && namespaceCache == old(namespaceCache)
      ensures ok ==> cadoCache == map[] && toDelete == [] && namespaceCache == map[]
      ensures ok ==> Commits(codec, old(LedgerNow()), Block(old(toDelete), old(namespaceCache), old(cadoCache), writes), LedgerNow())
      ensures ok ==> namespaceIndex == old(namespaceIndex) + Accepted(old(namespaceCache), writes)
      ensures ok ==> forall s :: s in old(namespaceCache) && writes(REGISTRY_PREFIX + s) ==>
                HoldsRecord(codec, LedgerNow(), s, old(namespaceCache)[s])
      ensures old(RegistryHashed(codec, cache)) ==> RegistryHashed(codec, cache)
      ensures ok ==> forall s :: s in old(namespaceIndex) ==> s in namespaceIndex && namespaceIndex[s] == old(namespaceIndex)[s]
    {
      if appHash.None? || !rest {
        return false;
      }
      ok := DeletesAllowed(deletes);
      if !ok {
        return;
      }
      ghost var before, block := LedgerNow(), Block(toDelete, namespaceCache, cadoCache, writes);
      ApplyDeletes();
      FlushStaged(writes);
      BlockLands(codec, before, block, LedgerNow());
    }
  }

  // ----- Snapshots -----

  /** Node-local objects are dropped once; dropping them again changes nothing. */
  lemma FilterTwice<D>(cache: Cache<D>)
    ensures WithoutInfrastructure(WithoutInfrastructure(cache)) == WithoutInfrastructure(cache)
    ensures (forall p :: p in cache ==> !IsInfrastructurePath(p)) ==> WithoutInfrastructure(cache) == cache
  {
  }

  /** Exactly when restoring passes both root checks. */
  predicate RestoreVerdict<D(==), V, C, A>(codec: Codec<D>, s: Snapshot<D, V, C, A>, trie: Trie<D>, tipRoot: D) {
    codec.trieRoot(trie) == tipRoot && s.stateTrieRoot == tipRoot
  }

  /**
   A node restored from a snapshot of `source` against that snapshot's own root: unless the
   two roots collide, the checks pass exactly when the source's trie agreed with its non-infrastructure cache.
   */
  lemma RestoreSucceedsExactly<D, V, C, A>(codec: Codec<D>, source: Committed<D, V, C, A>, target: Committed<D, V, C, A>,
                                           after: Committed<D, V, C, A>)
    requires source.appHash.Some? && Restored(codec, SnapshotOf(codec, source), target, after)
    requires codec.trieRoot(source.ledger.trie) == codec.trieRoot(after.ledger.trie) ==> source.ledger.trie == after.ledger.trie
    ensures RestoreVerdict(codec, SnapshotOf(codec, source), after.ledger.trie, codec.trieRoot(source.ledger.trie)) <==>
            TrieMatches(codec, source.ledger.trie, WithoutInfrastructure(source.ledger.cache))
  {
    FilterTwice(source.ledger.cache);
    var filtered := WithoutInfrastructure(source.ledger.cache);
    assert TrieMatches(codec, after.ledger.trie, filtered);
    if TrieMatches(codec, source.ledger.trie, filtered) {
      TrieUnique(codec, source.ledger.trie, after.ledger.trie, filtered);
    }
  }

  /**
   Whenever the source is consistent, restoring passes and gives the source back: every committed
   field except the failure counts, which stay the target's.
   */
  lemma RestoreRoundTrip<D, V, C, A>(codec: Codec<D>, source: Committed<D, V, C, A>, target: Committed<D, V, C, A>,
                                     after: Committed<D, V, C, A>)
    requires source.appHash.Some? && Consistent(codec, source.ledger)
    requires Restored(codec, SnapshotOf(codec, source), target, after)
    ensures after == source.(failedProofCounts := target.failedProofCounts)
    ensures RestoreVerdict(codec, SnapshotOf(codec, source), after.ledger.trie, codec.trieRoot(source.ledger.trie))
    ensures SnapshotOf(codec, after) == SnapshotOf(codec, source)
  {
    FilterTwice(source.ledger.cache);
    TrieUnique(codec, source.ledger.trie, after.ledger.trie, source.ledger.cache);
  }

  /**
   The restored node computes the source's app hash exactly when its own failure counts happen to be
   the source's: the counts are hashed but not part of the snapshot.
   */
  lemma AppHashRestoredExactly<D(!new), V, C, A>(codec: Codec<D>, layout: Layout<D, V, C, A>, source: Committed<D, V, C, A>,
                                                 target: Committed<D, V, C, A>, after: Committed<D, V, C, A>)
    requires layout.Ok() && NoCollision(layout, codec.sha, source.HashedPart(codec), after.HashedPart(codec))
    requires source.appHash.Some? && Consistent(codec, source.ledger)
    requires Restored(codec, SnapshotOf(codec, source), target, after)
    ensures CalculatedHash(codec, layout, after) == CalculatedHash(codec, layout, source) <==>
            target.failedProofCounts == source.failedProofCounts
  {
    RestoreRoundTrip(codec, source, target, after);
    CountsAreHashed(layout, codec.sha, source.HashedPart(codec), target.failedProofCounts);
  }

  /** One recorded failure suffices: a fresh node that restores the snapshot computes another app hash. */
  lemma FreshNodeDiverges<D(!new), V, C, A>(codec: Codec<D>, layout: Layout<D, V, C, A>, source: Committed<D, V, C, A>,
                                            target: Committed<D, V, C, A>, after: Committed<D, V, C, A>, provider: Address)
    requires layout.Ok() && NoCollision(layout, codec.sha, source.HashedPart(codec), after.HashedPart(codec))
    requires source.appHash == Some(CalculatedHash(codec, layout, source)) && Consistent(codec, source.ledger)
    requires Restored(codec, SnapshotOf(codec, source), target, after)
    requires source.failedProofCounts == map[provider := 1] && target.failedProofCounts == map[]
    ensures after.appHash == source.appHash && Some(CalculatedHash(codec, layout, after)) != after.appHash
  {
    AppHashRestoredExactly(codec, layout, source, target, after);
    assert provider in source.failedProofCounts;
  }

  /** Changing balances never changes the app hash: it sees the first version of every mutable object. */
  lemma UpdatesKeepAppHash<D(!new), V, C, A>(codec: Codec<D>, layout: Layout<D, V, C, A>, a: Committed<D, V, C, A>,
                                             b: Committed<D, V, C, A>, updates: seq<Update>)
    requires layout.Ok() && Consistent(codec, a.ledger) && Consistent(codec, b.ledger)
    requires b == a.(ledger := b.ledger) && b.ledger.cache == ApplyUpdates(codec.sha, a.ledger.cache, updates)
    ensures CalculatedHash(codec, layout, b) == CalculatedHash(codec, layout, a)
  {
    UpdatesKeepTrie(codec, a.ledger.trie, a.ledger.cache, updates);
    TrieUnique(codec, a.ledger.trie, b.ledger.trie, b.ledger.cache);
  }

  /** The state of a node whose only object is one account with this data. */
  function OneAccount<D>(codec: Codec<D>, owner: Address, first: seq<byte>, data: seq<byte>): Ledger<D> {
    var metadata := Metadata("account", Hex.AddressText(owner));
    var original := NewMutable(codec.sha, first, metadata);
    PutCado(codec, Ledger(map[], map[], {}, map[]), AccountPath(owner),
            UpdatedMutable(codec.sha, original.ContentHash(), data, metadata))
  }

  /** Two balances, one app hash. */
  lemma TwoBalancesOneAppHash<D(!new), V, C, A>(codec: Codec<D>, layout: Layout<D, V, C, A>, state: Committed<D, V, C, A>, owner: Address)
    requires codec.Ok() && layout.Ok()
    ensures var poor, rich := OneAccount(codec, owner, [0], [1]), OneAccount(codec, owner, [0], [2]);
            && Consistent(codec, poor) && Consistent(codec, rich) && poor.cache != rich.cache
            && CalculatedHash(codec, layout, state.(ledger := poor)) == CalculatedHash(codec, layout, state.(ledger := rich))
  {
    var poor, rich, p := OneAccount(codec, owner, [0], [1]), OneAccount(codec, owner, [0], [2]), AccountPath(owner);
    AccountPathFacts(owner);
    EmptyLedgerConsistent(codec);
    PutCadoKeepsConsistency(codec, Ledger(map[], map[], {}, map[]), p, poor.cache[p]);
    PutCadoKeepsConsistency(codec, Ledger(map[], map[], {}, map[]), p, rich.cache[p]);
    assert poor.cache[p].data == [1] && rich.cache[p].data == [2];
    assert [1][0] != [2][0];
    TriesEqualExactly(codec, poor.trie, poor.cache, rich.trie, rich.cache);
  }

  lemma RestoredFields<D, V, C, A>(codec: Codec<D>, s: Snapshot<D, V, C, A>, before: Committed<D, V, C, A>,
                                   after: Committed<D, V, C, A>)
    requires after.appHash == Some(s.appHash) && after.chainId == s.chainId
    requires after.blockHeight == s.blockHeight && after.currentEpoch == s.currentEpoch
    requires after.ledger.cache == WithoutInfrastructure(s.cache)
    requires after.ledger.epochIndex == s.epochIndex && after.ledger.namespaceIndex == s.namespaceIndex
    requires after.validators == s.validators && after.activeValidators == s.activeValidators
    requires after.capacityValidators == s.capacityValidators
    requires after.activeCapacityValidator == s.activeCapacityValidator
    requires after.failedProofCounts == before.failedProofCounts
    requires TrieMatches(codec, after.ledger.trie, after.ledger.cache)
    ensures Restored(codec, s, before, after)
  {
  }

  // ----- Helpers -----

  /** Feeds items to the byte collector one by one. */
  method Feed<T>(encode: T -> seq<byte>, items: seq<T>, bytes: seq<byte>) returns (out: seq<byte>)
    ensures out == bytes + Concat(encode, items)
  {
    out := bytes;
    for i := 0 to |items|
      invariant out == bytes + Concat(encode, items[..i])
    {
      assert items[..i + 1][..i] == items[..i];
      out := out + encode(items[i]);
    }
    assert items[..|items|] == items;
  }

  lemma FedInOrder<D(!new), V, C, A>(layout: Layout<D, V, C, A>, h: Hashed<D, V, C, A>, lists: seq<byte>, front: seq<byte>)
    requires lists == HeaderBytes(layout, h) + Concat(layout.validator, h.validators)
                      + Concat(layout.validator, h.active) + Concat(layout.provider, h.providers)
    requires front == if h.challenger.Some? then lists + layout.challenger(h.challenger.value) else lists
    ensures front == HeaderBytes(layout, h) + ListBytes(layout, h)
  {
    var c: seq<byte> := if h.challenger.Some? then layout.challenger(h.challenger.value) else [];
    assert c == match h.challenger case None => [] case Some(a) => layout.challenger(a);
    Regroup(HeaderBytes(layout, h), Concat(layout.validator, h.validators), Concat(layout.validator, h.active),
            Concat(layout.provider, h.providers), c);
  }

  lemma Regroup(h: seq<byte>, v: seq<byte>, a: seq<byte>, p: seq<byte>, c: seq<byte>)
    ensures h + v + a + p + c == h + (v + a + p + c)
    ensures c == [] ==> h + v + a + p == h + (v + a + p + c)
  {
  }

  method FeedCounts<D(!new), V, C, A>(layout: Layout<D, V, C, A>, counts: Counts, bytes: seq<byte>) returns (out: seq<byte>)
    requires layout.Ok()
    ensures out == bytes + CountsBytes(layout, counts)
  {
    KeysAreKeys(layout, counts);
    out := Feed(EncodeEntry, Entries(layout.keys(counts.Keys), counts), Word(|counts|, 8));
    out := bytes + out;
  }

  method FilterInfrastructure<D>(cache: Cache<D>) returns (kept: Cache<D>)
    ensures kept == WithoutInfrastructure(cache)
  {
    kept := map[];
    var todo := cache.Keys;
    while todo != {}
      invariant todo <= cache.Keys && kept == map[] + WithoutInfrastructure(cache - todo)
      decreases |todo|
    {
      var path :| path in todo;
      TodoStep(cache, todo, path);
      KeepStep(map[], cache - todo, path, cache[path]);
      if !IsInfrastructurePath(path) {
        kept := kept[path := cache[path]];
      }
      todo := todo - {path};
    }
    assert cache - {} == cache;
  }

  method ScanEpochs<D>(cache: Cache<D>) returns (epochs: set<int>)
    ensures epochs == EpochScan(cache)
  {
    epochs := {};
    var todo := cache.Keys;
    assert cache - todo == map[];
    while todo != {}
      invariant todo <= cache.Keys && epochs == EpochScan(cache - todo)
      decreases |todo|
    {
      var path :| path in todo;
      TodoStep(cache, todo, path);
      EpochScanInsert(cache - todo, path, cache[path]);
      var epoch := EpochOfPath(path);
      if epoch.Some? {
        epochs := epochs + {epoch.value};
      }
      todo := todo - {path};
    }
    assert cache - {} == cache;
  }

  lemma CollectedExactly<D>(cache: Cache<D>, staged: Cache<D>)
    ensures forall e :: e in EpochScan(cache) + EpochScan(staged) <==> HasEpochRecord(cache, e) || HasEpochRecord(staged, e)
  {
    forall e
      ensures e in EpochScan(cache) + EpochScan(staged) <==> HasEpochRecord(cache, e) || HasEpochRecord(staged, e)
    {
      ScanFindsExactly(cache, e);
      ScanFindsExactly(staged, e);
    }
  }

  /** The records of an index, each once. */
  method Values(index: map<string, NamespaceRecord>) returns (records: seq<NamespaceRecord>)
    requires OwnSlugs(index)
    ensures UniqueSlugs(records) && forall record :: record in records ==> ValidSlug(record.slug)
    ensures forall record :: record in records <==> record.slug in index && index[record.slug] == record
  {
    records := [];
    var todo := index.Keys;
    while todo != {}
      invariant todo <= index.Keys && UniqueSlugs(records)
      invariant forall record :: record in records <==> record.slug in index && record.slug !in todo && index[record.slug] == record
      invariant forall record :: record in records ==> ValidSlug(record.slug)
      decreases |todo|
    {
      var slug :| slug in todo;
      assert ValidSlug(slug);
      assert forall i :: 0 <= i < |records| ==> records[i] in records;
      records := records + [index[slug]];
      todo := todo - {slug};
    }
  }

  lemma StagedSlugs<D>(index: map<string, NamespaceRecord>, cadoCache: Cache<D>, namespaceCache: map<string, NamespaceRecord>, cache: Cache<D>)
    requires OwnSlugs(index) && StagedSafely(cadoCache, namespaceCache, cache)
    ensures OwnSlugs(index + namespaceCache)
  {
    var merged := index + namespaceCache;
    forall s | s in merged
      ensures ValidSlug(s) && merged[s].slug == s
    {
      if s in namespaceCache {
        assert Registrable(s);
      } else {
        assert ValidSlug(s);
      }
    }
  }

  lemma EveryRecordDecodes<D>(codec: Codec<D>, index: map<string, NamespaceRecord>, cache: Cache<D>)
    requires RegistryMatches(codec, index, cache)
    ensures forall p :: p in cache && IsRegistryPath(p) && cache[p].Immutable? ==> codec.deserialize(cache[p].data).Some?
  {
  }

  /** What a committed block guarantees about the registry. */
  lemma BlockLands<D>(codec: Codec<D>, before: Ledger<D>, b: Block<D>, after: Ledger<D>)
    requires Commits(codec, before, b, after) && StagedSafely(b.staged, b.registrations, before.cache)
    ensures forall s :: s in b.registrations && b.writes(REGISTRY_PREFIX + s) ==> HoldsRecord(codec, after, s, b.registrations[s])
    ensures RegistryHashed(codec, before.cache) ==> RegistryHashed(codec, after.cache)
  {
    forall s | s in b.registrations && b.writes(REGISTRY_PREFIX + s)
      ensures HoldsRecord(codec, after, s, b.registrations[s])
    {
      AcceptedAreHeld(codec, before, b, after, s);
    }
    if RegistryHashed(codec, before.cache) {
      CommitKeepsRegistryHashed(codec, before.cache, b);
    }
  }

  lemma InsertStep<D>(codec: Codec<D>, trie: Trie<D>, before: Cache<D>, staged: Cache<D>, todo: set<string>, p: string)
    requires codec.Ok() && p in todo && todo <= staged.Keys
    requires TrieMatches(codec, trie, before + WithoutInfrastructure(staged - todo))
    ensures TrieMatches(codec, if IsInfrastructurePath(p) then trie else trie[codec.Key(p) := staged[p].ContentHash()],
                        before + WithoutInfrastructure(staged - (todo - {p})))
  {
    TodoStep(staged, todo, p);
    KeepStep(before, staged - todo, p, staged[p]);
    TrieInsert(codec, trie, before + WithoutInfrastructure(staged - todo), p, staged[p]);
  }

  /**
   An indexed name has an object in the registry, so no staged registration can displace it: a name
   keeps its owner.
   */
  lemma NamesStayOwned<D>(codec: Codec<D>, l: Ledger<D>, cadoCache: Cache<D>, namespaceCache: map<string, NamespaceRecord>,
                          writes: string -> bool)
    requires Consistent(codec, l) && StagedSafely(cadoCache, namespaceCache, l.cache) && OwnSlugs(l.namespaceIndex)
    ensures AllRegistrable(namespaceCache)
    ensures var index := l.namespaceIndex + Accepted(namespaceCache, writes);
            OwnSlugs(index) && forall s :: s in l.namespaceIndex ==> s in index && index[s] == l.namespaceIndex[s]
  {
    forall s | s in namespaceCache
      ensures Registrable(s) && s !in l.namespaceIndex
    {
      assert Registrable(s);
      assert REGISTRY_PREFIX + s !in l.cache;
    }
    StagedSlugs(l.namespaceIndex, cadoCache, namespaceCache, l.cache);
    var index := l.namespaceIndex + Accepted(namespaceCache, writes);
    forall s | s in index
      ensures ValidSlug(s) && index[s].slug == s
    {
      assert s in l.namespaceIndex + namespaceCache && ValidSlug(s);
    }
  }
}
