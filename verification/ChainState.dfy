/**
 Committed chain state: the CADO cache, the Merkle trie over it and the two lookup indexes, and the
 merge of a block into all four at commit. The trie is a map from nibble keys to digests.
 */
module ChainState {
  import opened Prelude
  import opened Text
  import Hex
  import opened NamespaceRules
  import opened NamespaceListing
  import opened CadoPaths

  // ----- Nibble keys -----

  /** Two nibbles per byte, high one first. */
  function Nibbles(path: seq<byte>): (nibbles: seq<nat>)
    ensures |nibbles| == 2 * |path|
  {
    if path == [] then [] else Nibbles(path[..|path| - 1]) + [path[|path| - 1] / 16, path[|path| - 1] % 16]
  }

  method PathToNibbles(path: seq<byte>) returns (nibbles: seq<nat>)
    ensures nibbles == Nibbles(path)
  {
    nibbles := [];
    for i := 0 to |path|
      invariant nibbles == Nibbles(path[..i])
    {
      assert path[..i + 1][..i] == path[..i];
      nibbles := nibbles + [path[i] / 16];
      nibbles := nibbles + [path[i] % 16];
    }
    assert path[..|path|] == path;
  }

  /** Byte `i` gives its high nibble, then its low one. */
  lemma {:induction false} NibblesAt(path: seq<byte>, i: nat)
    requires i < |path|
    ensures Nibbles(path)[2 * i] == path[i] / 16 && Nibbles(path)[2 * i + 1] == path[i] % 16
    decreases |path|
  {
    var n := |path| - 1;
    if i < n {
      NibblesAt(path[..n], i);
    }
  }

  /** Different paths have different trie keys. */
  lemma {:induction false} NibblesInjective(a: seq<byte>, b: seq<byte>)
    requires Nibbles(a) == Nibbles(b)
    ensures a == b
    decreases |a|
  {
    assert |a| == |b|;
    if a != [] {
      var n := |a| - 1;
      SplitUnique(Nibbles(a[..n]), [a[n] / 16, a[n] % 16], Nibbles(b[..n]), [b[n] / 16, b[n] % 16]);
      assert [a[n] / 16, a[n] % 16][0] == [b[n] / 16, b[n] % 16][0];
      assert [a[n] / 16, a[n] % 16][1] == [b[n] / 16, b[n] % 16][1];
      NibblesInjective(a[..n], b[..n]);
      assert a == a[..n] + [a[n]] && b == b[..n] + [b[n]];
    }
  }

  // ----- CADO bodies -----

  datatype Metadata = Metadata(type_: string, owner: string)

  datatype CadoBody<+D> =
    | Immutable(hash: D, data: seq<byte>, metadata: Metadata)
    | Mutable(hash: D, data: seq<byte>, metadata: Metadata, latestHash: D)
  {
    /** What the trie stores: the data digest, or for a mutable body the digest of its first version. */
    function ContentHash(): D {
      hash
    }
  }

  function NewImmutable<D>(sha: seq<byte> -> D, data: seq<byte>, metadata: Metadata): CadoBody<D> {
    Immutable(sha(data), data, metadata)
  }

  function NewMutable<D>(sha: seq<byte> -> D, data: seq<byte>, metadata: Metadata): CadoBody<D> {
    Mutable(sha(data), data, metadata, sha(data))
  }

  function UpdatedMutable<D>(sha: seq<byte> -> D, originalHash: D, data: seq<byte>, metadata: Metadata): CadoBody<D> {
    Mutable(originalHash, data, metadata, sha(data))
  }

  // ----- The trie -----

  type Trie<D> = map<seq<nat>, D>

  /** Outside functions: path bytes, digests and the record codec. */
  datatype Codec<!D> = Codec(
    sha: seq<byte> -> D,
    utf8: string -> seq<byte>,
    fromUtf8: seq<byte> -> Option<string>,
    trieRoot: map<seq<nat>, D> -> D,
    serialize: NamespaceRecord -> seq<byte>,
    deserialize: seq<byte> -> Option<NamespaceRecord>)
  {
    ghost predicate Ok() {
      && (forall s :: fromUtf8(utf8(s)) == Some(s))
      && (forall r :: deserialize(serialize(r)) == Some(r))
    }

    function Key(path: string): seq<nat> {
      Nibbles(utf8(path))
    }
  }

  lemma KeysInjective<D>(codec: Codec<D>, p: string, q: string)
    requires codec.Ok() && codec.Key(p) == codec.Key(q)
    ensures p == q
  {
    NibblesInjective(codec.utf8(p), codec.utf8(q));
  }

  type Cache<D> = map<string, CadoBody<D>>

  /** The trie holds exactly the content hashes of the cache. */
  ghost predicate TrieMatches<D>(codec: Codec<D>, trie: Trie<D>, cache: Cache<D>) {
    && (forall p {:trigger codec.Key(p)} :: p in cache ==> codec.Key(p) in trie && trie[codec.Key(p)] == cache[p].ContentHash())
    && (forall k :: k in trie ==> exists p :: p in cache && codec.Key(p) == k)
  }

  lemma TrieUnique<D>(codec: Codec<D>, a: Trie<D>, b: Trie<D>, cache: Cache<D>)
    requires TrieMatches(codec, a, cache) && TrieMatches(codec, b, cache)
    ensures a == b
  {
    forall k | k in a
      ensures k in b && a[k] == b[k]
    {
      var p :| p in cache && codec.Key(p) == k;
    }
    forall k | k in b
      ensures k in a
    {
      var p :| p in cache && codec.Key(p) == k;
    }
  }

  lemma TrieInsert<D>(codec: Codec<D>, trie: Trie<D>, cache: Cache<D>, p: string, body: CadoBody<D>)
    requires codec.Ok() && TrieMatches(codec, trie, cache)
    ensures TrieMatches(codec, trie[codec.Key(p) := body.ContentHash()], cache[p := body])
  {
    var t, c := trie[codec.Key(p) := body.ContentHash()], cache[p := body];
    forall q | q in c
      ensures codec.Key(q) in t && t[codec.Key(q)] == c[q].ContentHash()
    {
      if codec.Key(q) == codec.Key(p) {
        KeysInjective(codec, p, q);
      }
    }
    forall k | k in t
      ensures exists q :: q in c && codec.Key(q) == k
    {
      if k == codec.Key(p) {
        assert p in c;
      } else {
        var q :| q in cache && codec.Key(q) == k;
        assert q in c;
      }
    }
  }

  lemma TrieRemove<D>(codec: Codec<D>, trie: Trie<D>, cache: Cache<D>, p: string)
    requires codec.Ok() && TrieMatches(codec, trie, cache)
    ensures TrieMatches(codec, trie - {codec.Key(p)}, cache - {p})
  {
    var t, c := trie - {codec.Key(p)}, cache - {p};
    forall q | q in c
      ensures codec.Key(q) in t && t[codec.Key(q)] == c[q].ContentHash()
    {
      if codec.Key(q) == codec.Key(p) {
        KeysInjective(codec, p, q);
      }
    }
    forall k | k in t
      ensures exists q :: q in c && codec.Key(q) == k
    {
      var q :| q in cache && codec.Key(q) == k;
      assert q in c;
    }
  }

  lemma RebuildStep<D>(codec: Codec<D>, trie: Trie<D>, cache: Cache<D>, todo: set<string>, p: string)
    requires codec.Ok() && TrieMatches(codec, trie, cache - todo) && p in todo && todo <= cache.Keys
    ensures TrieMatches(codec, trie[codec.Key(p) := cache[p].ContentHash()], cache - (todo - {p}))
  {
    TrieInsert(codec, trie, cache - todo, p, cache[p]);
    assert cache - (todo - {p}) == (cache - todo)[p := cache[p]];
  }

  lemma EmptyTrie<D>(codec: Codec<D>, cache: Cache<D>)
    ensures TrieMatches(codec, map[], cache - cache.Keys)
  {
    assert cache - cache.Keys == map[];
  }

  /** Rebuilding inserts the cache in whatever order; the result is the one trie that matches it. */
  method RebuildTrie<D>(codec: Codec<D>, cache: Cache<D>) returns (trie: Trie<D>)
    requires codec.Ok()
    ensures TrieMatches(codec, trie, cache)
  {
    trie := map[];
    var todo := cache.Keys;
    EmptyTrie(codec, cache);
    while todo != {}
      invariant todo <= cache.Keys && TrieMatches(codec, trie, cache - todo)
      decreases |todo|
    {
      var path :| path in todo;
      RebuildStep(codec, trie, cache, todo, path);
      var key := PathToNibbles(codec.utf8(path));
      trie := trie[key := cache[path].ContentHash()];
      todo := todo - {path};
    }
    assert cache - {} == cache;
  }

  /** The trie sees a cache only through its paths and original digests. */
  lemma TrieSeesOnlyOriginals<D>(codec: Codec<D>, trie: Trie<D>, a: Cache<D>, b: Cache<D>)
    requires TrieMatches(codec, trie, a) && a.Keys == b.Keys
    requires forall p :: p in a ==> a[p].ContentHash() == b[p].ContentHash()
    ensures TrieMatches(codec, trie, b)
  {
    forall k | k in trie
      ensures exists p :: p in b && codec.Key(p) == k
    {
      var p :| p in a && codec.Key(p) == k;
      assert p in b;
    }
  }

  /** And through nothing less: two caches have one trie exactly when paths and original digests agree. */
  lemma TriesEqualExactly<D>(codec: Codec<D>, t: Trie<D>, a: Cache<D>, u: Trie<D>, b: Cache<D>)
    requires codec.Ok() && TrieMatches(codec, t, a) && TrieMatches(codec, u, b)
    ensures t == u <==> a.Keys == b.Keys && forall p :: p in a ==> a[p].ContentHash() == b[p].ContentHash()
  {
    if t == u {
      SameTrieSamePaths(codec, t, a, b);
      SameTrieSamePaths(codec, t, b, a);
    }
    if a.Keys == b.Keys && forall p :: p in a ==> a[p].ContentHash() == b[p].ContentHash() {
      TrieSeesOnlyOriginals(codec, t, a, b);
      TrieUnique(codec, t, u, b);
    }
  }

  lemma SameTrieSamePaths<D>(codec: Codec<D>, t: Trie<D>, a: Cache<D>, b: Cache<D>)
    requires codec.Ok() && TrieMatches(codec, t, a) && TrieMatches(codec, t, b)
    ensures forall p :: p in a ==> p in b && a[p].ContentHash() == b[p].ContentHash()
  {
    forall p | p in a
      ensures p in b && a[p].ContentHash() == b[p].ContentHash()
    {
      assert codec.Key(p) in t;
      var q :| q in b && codec.Key(q) == codec.Key(p);
      KeysInjective(codec, p, q);
    }
  }

  /** An update of an existing object that passes its hash on. */
  datatype Update = Update(path: string, data: seq<byte>, metadata: Metadata)

  function ApplyUpdates<D>(sha: seq<byte> -> D, cache: Cache<D>, updates: seq<Update>): Cache<D> {
    if updates == [] then cache
    else
      var n := |updates| - 1;
      var before := ApplyUpdates(sha, cache, updates[..n]);
      var u := updates[n];
      if u.path in before then
        before[u.path := UpdatedMutable(sha, before[u.path].ContentHash(), u.data, u.metadata)]
      else before
  }

  /**
   No run of such updates moves the trie: every object keeps its first digest however often its data
   changes, so the state root does not commit to current balances.
   */
  lemma {:induction false} UpdatesKeepTrie<D>(codec: Codec<D>, trie: Trie<D>, cache: Cache<D>, updates: seq<Update>)
    requires TrieMatches(codec, trie, cache)
    ensures TrieMatches(codec, trie, ApplyUpdates(codec.sha, cache, updates))
    ensures ApplyUpdates(codec.sha, cache, updates).Keys == cache.Keys
    ensures forall p :: p in cache ==> ApplyUpdates(codec.sha, cache, updates)[p].ContentHash() == cache[p].ContentHash()
    decreases |updates|
  {
    if updates != [] {
      var n := |updates| - 1;
      UpdatesKeepTrie(codec, trie, cache, updates[..n]);
      TrieSeesOnlyOriginals(codec, trie, cache, ApplyUpdates(codec.sha, cache, updates));
    }
  }

  // ----- What an object's digests say -----

  /** A new object's digest, which the trie stores, is that of its data; an update passes it on. */
  lemma DigestsOfBodies<D>(sha: seq<byte> -> D, original: D, data: seq<byte>, metadata: Metadata)
    ensures NewImmutable(sha, data, metadata).ContentHash() == sha(data) && NewImmutable(sha, data, metadata).data == data
    ensures NewMutable(sha, data, metadata).ContentHash() == sha(data) == NewMutable(sha, data, metadata).latestHash
    ensures NewMutable(sha, data, metadata).data == data
    ensures var updated := UpdatedMutable(sha, original, data, metadata);
            updated.ContentHash() == original && updated.latestHash == sha(data) && updated.data == data
  {
  }

  /** The data of the last update of a path, if it has one. */
  function LastData(updates: seq<Update>, path: string): Option<seq<byte>> {
    if updates == [] then None
    else if updates[|updates| - 1].path == path then Some(updates[|updates| - 1].data)
    else LastData(updates[..|updates| - 1], path)
  }

  /** A run of updates leaves each object with the data of its last update, and the digest of that data as its latest. */
  lemma {:induction false} LastUpdateDecides<D>(sha: seq<byte> -> D, cache: Cache<D>, updates: seq<Update>, path: string)
    requires path in cache
    ensures path in ApplyUpdates(sha, cache, updates)
    ensures var now := ApplyUpdates(sha, cache, updates)[path];
            match LastData(updates, path)
            case None => now == cache[path]
            case Some(data) => now.Mutable? && now.data == data && now.latestHash == sha(data)
    decreases |updates|
  {
    if updates != [] {
      LastUpdateDecides(sha, cache, updates[..|updates| - 1], path);
    }
  }

  /** The trie keeps the digest of the first version, whatever the updates. */
  lemma FirstVersionStays<D>(codec: Codec<D>, trie: Trie<D>, cache: Cache<D>, updates: seq<Update>, path: string,
                             first: seq<byte>, metadata: Metadata)
    requires TrieMatches(codec, trie, ApplyUpdates(codec.sha, cache, updates))
    requires path in cache && cache[path] == NewMutable(codec.sha, first, metadata)
    ensures codec.Key(path) in trie && trie[codec.Key(path)] == codec.sha(first)
  {
    OriginalsStay(codec.sha, cache, updates, path);
    assert path in ApplyUpdates(codec.sha, cache, updates);
  }

  lemma {:induction false} OriginalsStay<D>(sha: seq<byte> -> D, cache: Cache<D>, updates: seq<Update>, path: string)
    requires path in cache
    ensures path in ApplyUpdates(sha, cache, updates)
    ensures ApplyUpdates(sha, cache, updates)[path].ContentHash() == cache[path].ContentHash()
    decreases |updates|
  {
    if updates != [] {
      OriginalsStay(sha, cache, updates[..|updates| - 1], path);
    }
  }

  /** Two nodes whose objects at a path began differently have different tries, unless the two data collide. */
  lemma FirstVersionsAreBound<D>(codec: Codec<D>, t: Trie<D>, a: Cache<D>, us: seq<Update>, u: Trie<D>, b: Cache<D>, vs: seq<Update>,
                                 path: string, first: seq<byte>, other: seq<byte>, m: Metadata, n: Metadata)
    requires TrieMatches(codec, t, ApplyUpdates(codec.sha, a, us)) && TrieMatches(codec, u, ApplyUpdates(codec.sha, b, vs))
    requires path in a && a[path] == NewMutable(codec.sha, first, m)
    requires path in b && b[path] == NewMutable(codec.sha, other, n)
    requires codec.sha(first) == codec.sha(other) ==> first == other
    ensures t == u ==> first == other
  {
    FirstVersionStays(codec, t, a, us, path, first, m);
    FirstVersionStays(codec, u, b, vs, path, other, n);
  }

  // ----- The indexes -----

  const EPOCH_PREFIX: string := "/" + "@eld" + "/" + "epoch_record" + "/"
  const REGISTRY_PREFIX: string := "/" + "@eld" + "/" + "namespace" + "/"

  function EpochOfPath(path: string): Option<int> {
    if !StartsWith(path, EPOCH_PREFIX) then None
    else
      match EpochFromName(path[|EPOCH_PREFIX|..])
      case None => None
      case Some(e) => Some(e)
  }

  /** The record path of an epoch, up to the case of its digits. */
  ghost predicate IsEpochPath(path: string, epoch: int) {
    exists name ::
      path == "/@eld/epoch_record/" + name && StartsWith(name, "0x") && 0 <= epoch < TWO_63 && LowerAll(name) == EpochName(epoch).value
  }

  lemma EpochPrefix()
    ensures EPOCH_PREFIX == "/@eld/epoch_record/"
  {
  }

  /** A path counts for an epoch exactly when it is that epoch's record path. */
  lemma EpochOfPathExactly(path: string, epoch: int)
    ensures EpochOfPath(path) == Some(epoch) <==> IsEpochPath(path, epoch)
  {
    EpochPrefix();
    if EpochOfPath(path) == Some(epoch) {
      var name := path[|EPOCH_PREFIX|..];
      EpochFromNameExactly(name, epoch);
      assert path == EPOCH_PREFIX + name;
    }
    if IsEpochPath(path, epoch) {
      var name :| path == "/@eld/epoch_record/" + name && StartsWith(name, "0x") && LowerAll(name) == EpochName(epoch).value;
      EpochFromNameExactly(name, epoch);
      assert path[..|EPOCH_PREFIX|] == EPOCH_PREFIX && path[|EPOCH_PREFIX|..] == name;
    }
  }

  /** The path the constructor builds for an epoch's record counts for that epoch. */
  lemma EpochRecordPathCounts(epoch: int64)
    requires epoch >= 0
    ensures New(EpochRecord, Name(EpochName(epoch).value)).Some?
    ensures EpochOfPath(New(EpochRecord, Name(EpochName(epoch).value)).value.path) == Some(epoch)
  {
    var name := EpochName(epoch).value;
    EpochNameIsPathName(epoch);
    EpochNamesRoundTrip(epoch);
    var path := Print(SCOPE_ELD_ROOT, EpochRecord, name);
    assert path == EPOCH_PREFIX + name;
    assert path[..|EPOCH_PREFIX|] == EPOCH_PREFIX && path[|EPOCH_PREFIX|..] == name;
  }

  ghost predicate HasEpochRecord<D>(cache: Cache<D>, epoch: int) {
    exists p :: p in cache && IsEpochPath(p, epoch)
  }

  /** The scan finds exactly the epochs whose record path is there. */
  lemma ScanFindsExactly<D>(cache: Cache<D>, epoch: int)
    ensures epoch in EpochScan(cache) <==> HasEpochRecord(cache, epoch)
  {
    if epoch in EpochScan(cache) {
      var p :| p in cache && EpochOfPath(p) == Some(epoch);
      EpochOfPathExactly(p, epoch);
    }
    if HasEpochRecord(cache, epoch) {
      var p :| p in cache && IsEpochPath(p, epoch);
      EpochOfPathExactly(p, epoch);
    }
  }

  predicate IsRegistryPath(path: string) {
    StartsWith(path, REGISTRY_PREFIX) && |path| > |REGISTRY_PREFIX|
  }

  ghost function EpochScan<D>(cache: Cache<D>): set<int> {
    set p | p in cache && EpochOfPath(p).Some? :: EpochOfPath(p).value
  }

  /** The registry records in the cache, by slug: only immutable bodies count. */
  ghost predicate RegistryMatches<D>(codec: Codec<D>, index: map<string, NamespaceRecord>, cache: Cache<D>) {
    && (forall p {:trigger IsRegistryPath(p)} :: p in cache && IsRegistryPath(p) && cache[p].Immutable? ==>
          && p[|REGISTRY_PREFIX|..] in index
          && codec.deserialize(cache[p].data) == Some(index[p[|REGISTRY_PREFIX|..]]))
    && (forall slug {:trigger REGISTRY_PREFIX + slug} :: slug in index ==>
          slug != "" && REGISTRY_PREFIX + slug in cache && cache[REGISTRY_PREFIX + slug].Immutable?)
  }

  /** The full scan; every record must decode. */
  method ScanRegistry<D>(codec: Codec<D>, cache: Cache<D>) returns (r: Result<map<string, NamespaceRecord>, ()>)
    ensures r.Ok? <==> forall p :: p in cache && IsRegistryPath(p) && cache[p].Immutable? ==> codec.deserialize(cache[p].data).Some?
    ensures r.Ok? ==> RegistryMatches(codec, r.value, cache)
  {
    var index: map<string, NamespaceRecord> := map[];
    var todo := cache.Keys;
    assert cache - todo == map[];
    while todo != {}
      invariant todo <= cache.Keys && RegistryMatches(codec, index, cache - todo)
      decreases |todo|
    {
      var path :| path in todo;
      assert cache - (todo - {path}) == (cache - todo)[path := cache[path]];
      if IsRegistryPath(path) && cache[path].Immutable? {
        var record := codec.deserialize(cache[path].data);
        if record.None? {
          return Err(());
        }
        RegistryInsert(codec, index, cache - todo, path, cache[path], record.value);
        index := index[path[|REGISTRY_PREFIX|..] := record.value];
      } else {
        RegistrySkip(codec, index, cache - todo, path, cache[path]);
      }
      todo := todo - {path};
    }
    assert cache - todo == cache;
    r := Ok(index);
  }

  lemma RegistryPathOf(path: string)
    requires IsRegistryPath(path)
    ensures path == REGISTRY_PREFIX + path[|REGISTRY_PREFIX|..]
  {
  }

  lemma RegistryInsert<D>(codec: Codec<D>, index: map<string, NamespaceRecord>, cache: Cache<D>, path: string,
                          body: CadoBody<D>, record: NamespaceRecord)
    requires RegistryMatches(codec, index, cache) && IsRegistryPath(path) && body.Immutable?
    requires codec.deserialize(body.data) == Some(record)
    ensures RegistryMatches(codec, index[path[|REGISTRY_PREFIX|..] := record], cache[path := body])
  {
    var i, c := index[path[|REGISTRY_PREFIX|..] := record], cache[path := body];
    RegistryPathOf(path);
    forall p | p in c && IsRegistryPath(p) && c[p].Immutable?
      ensures p[|REGISTRY_PREFIX|..] in i && codec.deserialize(c[p].data) == Some(i[p[|REGISTRY_PREFIX|..]])
    {
      RegistryPathOf(p);
    }
    forall slug | slug in i
      ensures slug != "" && REGISTRY_PREFIX + slug in c && c[REGISTRY_PREFIX + slug].Immutable?
    {
      if slug in index {
        assert REGISTRY_PREFIX + slug in cache;
      }
    }
  }

  lemma RegistrySkip<D>(codec: Codec<D>, index: map<string, NamespaceRecord>, cache: Cache<D>, path: string, body: CadoBody<D>)
    requires RegistryMatches(codec, index, cache) && path !in cache && !(IsRegistryPath(path) && body.Immutable?)
    ensures RegistryMatches(codec, index, cache[path := body])
  {
    forall slug | slug in index
      ensures REGISTRY_PREFIX + slug in cache[path := body] && cache[path := body][REGISTRY_PREFIX + slug].Immutable?
    {
      assert REGISTRY_PREFIX + slug != path;
    }
  }

  /** One index per cache: two that match it are equal. */
  lemma RegistryUnique<D>(codec: Codec<D>, a: map<string, NamespaceRecord>, b: map<string, NamespaceRecord>, cache: Cache<D>)
    requires RegistryMatches(codec, a, cache) && RegistryMatches(codec, b, cache)
    ensures a == b
  {
    forall slug | slug in a || slug in b
      ensures slug in a && slug in b && a[slug] == b[slug]
    {
      var p := REGISTRY_PREFIX + slug;
      assert p[|REGISTRY_PREFIX|..] == slug && p[..|REGISTRY_PREFIX|] == REGISTRY_PREFIX;
      assert p in cache && IsRegistryPath(p) && cache[p].Immutable?;
    }
  }

  // ----- Committing a block -----

  datatype Ledger<D> = Ledger(
    cache: Cache<D>, trie: Trie<D>, epochIndex: set<int>, namespaceIndex: map<string, NamespaceRecord>)

  /** Trie and indexes are what a full scan of the cache would give, and nothing node-local is in it. */
  ghost predicate Consistent<D>(codec: Codec<D>, l: Ledger<D>) {
    && TrieMatches(codec, l.trie, l.cache)
    && l.epochIndex == EpochScan(l.cache)
    && RegistryMatches(codec, l.namespaceIndex, l.cache)
    && forall p {:trigger IsInfrastructurePath(p)} :: p in l.cache ==> !IsInfrastructurePath(p)
  }

  predicate IsSystemDeletable(path: string) {
    && Parse(path).Some? && Parse(path).value.scope == SCOPE_ELD_ROOT
    && (Parse(path).value.type_.ChunkReference? || Parse(path).value.type_.SnapshotChunk?
        || Parse(path).value.type_.SnapshotMetadata?)
  }

  /** The deletable paths, spelled out: three kinds of cleanup data in the root scope. */
  lemma DeletableExactly(path: string)
    ensures IsSystemDeletable(path) <==>
            exists t, name :: path == Print("@eld", t, name) && ValidName(t, name) && TypeName(t) in ["chunk_reference", "snapshot_chunk", "snapshot_metadata"]
  {
    if IsSystemDeletable(path) {
      var c := Parse(path).value;
      ParsedPathIsPrinted(path);
      DeletableTypes(c.type_);
      assert path == Print("@eld", c.type_, c.name) && ValidName(c.type_, c.name);
    }
    forall t, name | path == Print("@eld", t, name) && ValidName(t, name) && TypeName(t) in ["chunk_reference", "snapshot_chunk", "snapshot_metadata"]
      ensures IsSystemDeletable(path)
    {
      PrintedPathParses("@eld", t, name);
      DeletableTypes(t);
    }
  }

  lemma DeletableTypes(t: CadoType)
    ensures t.ChunkReference? || t.SnapshotChunk? || t.SnapshotMetadata? <==> TypeName(t) in ["chunk_reference", "snapshot_chunk", "snapshot_metadata"]
  {
    TypeNamesParse(t);
    assert ParseType("chunk_reference") == Some(ChunkReference) && ParseType("snapshot_chunk") == Some(SnapshotChunk);
    assert ParseType("snapshot_metadata") == Some(SnapshotMetadata);
  }

  function DeletePath<D>(codec: Codec<D>, l: Ledger<D>, path: string): Ledger<D> {
    l.(cache := l.cache - {path}, trie := l.trie - {codec.Key(path)})
  }

  /** A staged object: into the cache, the trie and, if it is an epoch record, the epoch index. */
  function PutCado<D>(codec: Codec<D>, l: Ledger<D>, path: string, body: CadoBody<D>): Ledger<D> {
    var indexed :=
      match EpochOfPath(path)
      case None => l.epochIndex
      case Some(e) => l.epochIndex + {e};
    if IsInfrastructurePath(path) then l.(epochIndex := indexed)
    else l.(cache := l.cache[path := body], trie := l.trie[codec.Key(path) := body.ContentHash()], epochIndex := indexed)
  }

  const RESERVED_SLUGS: set<string> :=
    {"eld", "user", "public", "contract", "test", "other", "pinboard", "admin", "namespace"}

  /** Where a registration is stored: nowhere if the slug is malformed or reserved. */
  function RegistryPath(slug: string): Option<string> {
    match NormalizeSlug(slug)
    case None => None
    case Some(canonical) => if canonical in RESERVED_SLUGS then None else Some(REGISTRY_PREFIX + canonical)
  }

  function RegistryBody<D>(codec: Codec<D>, slug: string, record: NamespaceRecord): CadoBody<D> {
    NewImmutable(codec.sha, codec.serialize(record), Metadata("namespace", slug))
  }

  /** A staged registration: an immutable record under its registry path. */
  function PutNamespace<D>(codec: Codec<D>, l: Ledger<D>, slug: string, record: NamespaceRecord): Ledger<D> {
    match RegistryPath(slug)
    case None => l
    case Some(path) =>
      var body := RegistryBody(codec, slug, record);
      l.(cache := l.cache[path := body], trie := l.trie[codec.Key(path) := body.ContentHash()],
         namespaceIndex := l.namespaceIndex[slug := record])
  }

  /** What a type prefix says about a parsable path. */
  lemma PrefixGivesType(t: CadoType, rest: string, path: string)
    requires path == "/" + "@eld" + "/" + TypeName(t) + "/" + rest && Parse(path).Some?
    ensures Parse(path).value.type_ == t && Parse(path).value.name == rest
  {
    var c := Parse(path).value;
    ParsedPieces(path);
    TypeNamesRoundTrip(t);
    TypeNamesRoundTrip(c.type_);
    TwoReadings(path[1..], TypeName(t), rest, c.scope, TypeName(c.type_), c.name);
  }

  lemma TwoReadings(body: string, name: string, rest: string, scope: string, other: string, last: string)
    requires "/" + body == "/" + "@eld" + "/" + name + "/" + rest && '/' !in name
    requires Split(body, '/') == [scope, other, last]
    ensures name == other && rest == last
  {
    assert body == ("/" + body)[1..] == "@eld" + "/" + name + "/" + rest;
    ReadTwoWays(body, name, rest, scope, other, last);
  }

  /** Epoch records and registry entries are of their types, hence neither node-local nor deletable. */
  lemma IndexedPathsAreChainState(path: string)
    requires EpochOfPath(path).Some? || IsRegistryPath(path)
    ensures !IsInfrastructurePath(path) && !IsSystemDeletable(path)
  {
    if Parse(path).Some? {
      if IsRegistryPath(path) {
        RegistryPathOf(path);
        PrefixGivesType(Namespace, path[|REGISTRY_PREFIX|..], path);
      } else {
        assert path == EPOCH_PREFIX + path[|EPOCH_PREFIX|..];
        PrefixGivesType(EpochRecord, path[|EPOCH_PREFIX|..], path);
      }
    }
  }

  /** The registry index depends only on the registry paths of the cache. */
  lemma RegistryFrame<D>(codec: Codec<D>, index: map<string, NamespaceRecord>, a: Cache<D>, b: Cache<D>)
    requires RegistryMatches(codec, index, a)
    requires forall p :: IsRegistryPath(p) ==> (p in a <==> p in b) && (p in a ==> a[p] == b[p])
    ensures RegistryMatches(codec, index, b)
  {
    forall slug | slug in index
      ensures REGISTRY_PREFIX + slug in b && b[REGISTRY_PREFIX + slug].Immutable?
    {
      assert IsRegistryPath(REGISTRY_PREFIX + slug);
    }
  }

  lemma DeletableIsNotIndexed(path: string)
    requires IsSystemDeletable(path) || IsInfrastructurePath(path)
    ensures EpochOfPath(path).None? && !IsRegistryPath(path)
  {
    if EpochOfPath(path).Some? || IsRegistryPath(path) {
      IndexedPathsAreChainState(path);
      assert false;
    }
  }

  lemma DeleteKeepsConsistency<D>(codec: Codec<D>, l: Ledger<D>, path: string)
    requires codec.Ok() && Consistent(codec, l) && IsSystemDeletable(path)
    ensures Consistent(codec, DeletePath(codec, l, path))
  {
    TrieRemove(codec, l.trie, l.cache, path);
    DeletableIsNotIndexed(path);
    EpochScanRemove(l.cache, path);
    RegistryFrame(codec, l.namespaceIndex, l.cache, l.cache - {path});
  }

  lemma PutCadoKeepsConsistency<D>(codec: Codec<D>, l: Ledger<D>, path: string, body: CadoBody<D>)
    requires codec.Ok() && Consistent(codec, l) && !IsRegistryPath(path)
    ensures Consistent(codec, PutCado(codec, l, path, body))
  {
    if IsInfrastructurePath(path) {
      DeletableIsNotIndexed(path);
    } else {
      TrieInsert(codec, l.trie, l.cache, path, body);
      EpochScanInsert(l.cache, path, body);
      RegistryFrame(codec, l.namespaceIndex, l.cache, l.cache[path := body]);
    }
  }

  lemma EpochScanRemove<D>(cache: Cache<D>, path: string)
    requires EpochOfPath(path).None?
    ensures EpochScan(cache - {path}) == EpochScan(cache)
  {
    assert forall p :: p in cache - {path} <==> p in cache && p != path;
  }

  lemma EpochScanInsert<D>(cache: Cache<D>, path: string, body: CadoBody<D>)
    ensures EpochScan(cache[path := body]) ==
            match EpochOfPath(path) case None => EpochScan(cache) case Some(e) => EpochScan(cache) + {e}
  {
    var c := cache[path := body];
    assert forall p :: p in c <==> p in cache || p == path;
  }

  lemma PutNamespaceKeepsConsistency<D>(codec: Codec<D>, l: Ledger<D>, slug: string, record: NamespaceRecord)
    requires codec.Ok() && Consistent(codec, l) && ValidSlug(slug)
    ensures Consistent(codec, PutNamespace(codec, l, slug, record))
  {
    CanonicalSlugIsFixed(slug);
    if RegistryPath(slug).Some? {
      var body, path := RegistryBody(codec, slug, record), REGISTRY_PREFIX + slug;
      assert path[|REGISTRY_PREFIX|..] == slug && path[..|REGISTRY_PREFIX|] == REGISTRY_PREFIX;
      TrieInsert(codec, l.trie, l.cache, path, body);
      RegistryInsert(codec, l.namespaceIndex, l.cache, path, body, record);
      EpochScanInsert(l.cache, path, body);
      RegistryIsNoEpoch(slug);
      IndexedPathsAreChainState(path);
    }
  }

  lemma EmptyLedgerConsistent<D>(codec: Codec<D>)
    ensures Consistent(codec, Ledger(map[], map[], {}, map[]))
  {
  }

  function AccountPath(owner: Address): string {
    Print(SCOPE_ELD_ROOT, Account, Hex.AddressText(owner))
  }

  /** Account paths parse, and are neither node-local nor indexed. */
  lemma AccountPathFacts(owner: Address)
    ensures New(Account, AddressKey(owner)).Some? && New(Account, AddressKey(owner)).value.path == AccountPath(owner)
    ensures !IsInfrastructurePath(AccountPath(owner)) && EpochOfPath(AccountPath(owner)).None?
    ensures !IsRegistryPath(AccountPath(owner))
  {
    var name := Hex.AddressText(owner);
    AddressIsName(owner);
    PrintedPathParses(SCOPE_ELD_ROOT, Account, name);
    SixthLetter("account", name);
  }

  lemma AddressIsName(owner: Address)
    ensures ValidName(Account, Hex.AddressText(owner))
  {
    var name := Hex.AddressText(owner);
    Hex.DecodeInvertsEncode(owner);
    assert name[2..] == Hex.Encode(owner) && name[..2] == "0x";
  }

  lemma SixthLetter(type_: string, name: string)
    requires type_ != "" && type_[0] != 'e' && type_[0] != 'n'
    ensures var path := "/" + "@eld" + "/" + type_ + "/" + name;
            !StartsWith(path, EPOCH_PREFIX) && !StartsWith(path, REGISTRY_PREFIX)
  {
    var path := "/" + "@eld" + "/" + type_ + "/" + name;
    assert path[6] == type_[0] && EPOCH_PREFIX[6] == 'e' && REGISTRY_PREFIX[6] == 'n';
  }

  lemma RegistryIsNoEpoch(slug: string)
    ensures !StartsWith(REGISTRY_PREFIX + slug, EPOCH_PREFIX)
  {
    var path := REGISTRY_PREFIX + slug;
    assert path[6] == "namespace"[0] && EPOCH_PREFIX[6] == "epoch_record"[0];
  }
}
