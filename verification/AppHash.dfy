/**
 What the app hash commits to. The node feeds its state to a hasher that just collects bytes, then
 digests them; this is that byte layout, on a little-endian 64-bit machine.
 */
module AppHash {
  import opened Prelude
  import opened ChallengeDerivation

  type uint32 = x: int | 0 <= x < 0x1_0000_0000

  type Counts = map<Address, uint32>

  function Word(x: nat, width: nat): (bytes: seq<byte>)
    ensures |bytes| == width
    decreases width
  {
    if width == 0 then [] else [x % 256] + Word(x / 256, width - 1)
  }

  /** Two's complement. */
  function Int64Word(x: int64): (bytes: seq<byte>)
    ensures |bytes| == 8
  {
    Word(if x < 0 then x + TWO_64 else x, 8)
  }

  /** Arrays and slices: the length, then the bytes. */
  function Prefixed(bytes: seq<byte>): (r: seq<byte>)
    ensures |r| == 8 + |bytes|
  {
    Word(|bytes|, 8) + bytes
  }

  /** Items one after another, with no count in front. */
  function Concat<T>(encode: T -> seq<byte>, items: seq<T>): seq<byte> {
    if items == [] then []
    else Concat(encode, items[..|items| - 1]) + encode(items[|items| - 1])
  }

  function CountBytes(provider: Address, failures: uint32): (bytes: seq<byte>)
    ensures |bytes| == 32
  {
    Prefixed(provider) + Word(failures, 4)
  }

  type Entry = (Address, uint32)

  function Entries(order: seq<Address>, counts: Counts): (entries: seq<Entry>)
    requires forall i :: 0 <= i < |order| ==> order[i] in counts
    ensures |entries| == |order| && forall i :: 0 <= i < |order| ==> entries[i] == (order[i], counts[order[i]])
  {
    seq(|order|, i requires 0 <= i < |order| => (order[i], counts[order[i]]))
  }

  function EncodeEntry(e: Entry): seq<byte> {
    CountBytes(e.0, e.1)
  }

  /** The encoders of the hashed parts; `keys` lists the keys of an ordered map. */
  datatype Layout<!D(!new), !V, !C, !A> = Layout(
    digest: D -> seq<byte>,
    validator: V -> seq<byte>,
    provider: C -> seq<byte>,
    challenger: A -> seq<byte>,
    keys: set<Address> -> seq<Address>)
  {
    ghost predicate Ok() {
      && (forall d :: |digest(d)| == 32)
      && (forall d, e :: digest(d) == digest(e) ==> d == e)
      && forall s :: Elements(keys(s)) == s && |keys(s)| == |s|
    }
  }

  /** A map: its size, then its entries in key order. */
  ghost function CountsBytes<D(!new), V, C, A>(layout: Layout<D, V, C, A>, counts: Counts): seq<byte>
    requires layout.Ok()
  {
    KeysAreKeys(layout, counts);
    Word(|counts|, 8) + Concat(EncodeEntry, Entries(layout.keys(counts.Keys), counts))
  }

  lemma KeysAreKeys<D(!new), V, C, A>(layout: Layout<D, V, C, A>, counts: Counts)
    requires layout.Ok()
    ensures var order := layout.keys(counts.Keys);
            && (forall i :: 0 <= i < |order| ==> order[i] in counts)
            && (forall a :: a in counts ==> a in order)
  {
    var order := layout.keys(counts.Keys);
    assert Elements(order) == counts.Keys;
    assert forall i :: 0 <= i < |order| ==> order[i] in Elements(order);
    assert forall a :: a in counts ==> a in Elements(order);
  }

  datatype Hashed<D, V, C, A> = Hashed(
    height: int64, epoch: int64, root: D, validators: seq<V>, active: seq<V>, providers: seq<C>,
    challenger: Option<A>, failures: Counts)

  ghost function ListBytes<D(!new), V, C, A>(layout: Layout<D, V, C, A>, h: Hashed<D, V, C, A>): seq<byte> {
    Concat(layout.validator, h.validators) + Concat(layout.validator, h.active)
    + Concat(layout.provider, h.providers)
    + match h.challenger case None => [] case Some(a) => layout.challenger(a)
  }

  ghost function HeaderBytes<D(!new), V, C, A>(layout: Layout<D, V, C, A>, h: Hashed<D, V, C, A>): seq<byte> {
    Int64Word(h.height) + Int64Word(h.epoch) + Prefixed(layout.digest(h.root))
  }

  ghost function Preimage<D(!new), V, C, A>(layout: Layout<D, V, C, A>, h: Hashed<D, V, C, A>): seq<byte>
    requires layout.Ok()
  {
    HeaderBytes(layout, h) + ListBytes(layout, h) + CountsBytes(layout, h.failures)
  }

  // ----- What two equal preimages share -----

  lemma {:induction false} WordInjective(x: nat, y: nat, width: nat)
    requires x < Pow256(width) && y < Pow256(width) && Word(x, width) == Word(y, width)
    ensures x == y
    decreases width
  {
    if width > 0 {
      SplitUnique([x % 256], Word(x / 256, width - 1), [y % 256], Word(y / 256, width - 1));
      assert [x % 256][0] == [y % 256][0];
      WordInjective(x / 256, y / 256, width - 1);
    }
  }

  lemma Int64WordInjective(x: int64, y: int64)
    requires Int64Word(x) == Int64Word(y)
    ensures x == y
  {
    Pow256Is64Bits();
    WordInjective(if x < 0 then x + TWO_64 else x, if y < 0 then y + TWO_64 else y, 8);
  }

  lemma CountBytesInjective(a: Address, m: uint32, b: Address, n: uint32)
    requires CountBytes(a, m) == CountBytes(b, n)
    ensures a == b && m == n
  {
    SplitUnique(Prefixed(a), Word(m, 4), Prefixed(b), Word(n, 4));
    SplitUnique(Word(|a|, 8), a, Word(|b|, 8), b);
    assert Pow256(4) == 256 * 256 * 256 * 256 * Pow256(0);
    WordInjective(m, n, 4);
  }

  /** No encoding is empty, and none is a proper prefix of another. */
  ghost predicate SelfDelimiting<T(!new)>(encode: T -> seq<byte>) {
    && (forall x :: |encode(x)| > 0)
    && forall x, y, s, t :: encode(x) + s == encode(y) + t ==> x == y
  }

  /** Self-delimiting items need no separators and no count. */
  lemma {:induction false} ConcatInjective<T(!new)>(encode: T -> seq<byte>, a: seq<T>, b: seq<T>)
    requires SelfDelimiting(encode) && Concat(encode, a) == Concat(encode, b)
    ensures a == b
    decreases |a|
  {
    if a != [] && b != [] {
      ConcatFirst(encode, a);
      ConcatFirst(encode, b);
      assert a[0] == b[0];
      SplitUnique(encode(a[0]), Concat(encode, a[1..]), encode(b[0]), Concat(encode, b[1..]));
      ConcatInjective(encode, a[1..], b[1..]);
      assert a == [a[0]] + a[1..] && b == [b[0]] + b[1..];
    }
  }

  lemma ConcatFirst<T>(encode: T -> seq<byte>, a: seq<T>)
    requires a != []
    ensures Concat(encode, a) == encode(a[0]) + Concat(encode, a[1..])
  {
    ConcatAppends(encode, [a[0]], a[1..]);
    assert a == [a[0]] + a[1..];
    assert Concat(encode, [a[0]]) == [] + encode(a[0]);
  }

  lemma EntriesInjective(a: seq<Entry>, b: seq<Entry>)
    requires Concat(EncodeEntry, a) == Concat(EncodeEntry, b)
    ensures a == b
  {
    forall x, y, s, t | EncodeEntry(x) + s == EncodeEntry(y) + t
      ensures x == y
    {
      SplitUnique(EncodeEntry(x), s, EncodeEntry(y), t);
      CountBytesInjective(x.0, x.1, y.0, y.1);
    }
    ConcatInjective(EncodeEntry, a, b);
  }

  lemma EntriesDetermineCounts(o: seq<Address>, m: Counts, p: seq<Address>, n: Counts)
    requires (forall i :: 0 <= i < |o| ==> o[i] in m) && (forall a :: a in m ==> a in o)
    requires (forall i :: 0 <= i < |p| ==> p[i] in n) && (forall a :: a in n ==> a in p)
    requires Entries(o, m) == Entries(p, n)
    ensures m == n
  {
    var e, f := Entries(o, m), Entries(p, n);
    assert |o| == |e| == |f| == |p|;
    forall i | 0 <= i < |o|
      ensures o[i] == p[i] && m[o[i]] == n[p[i]]
    {
      assert e[i] == f[i];
    }
    assert o == p;
  }

  /** The failure counts are encoded without loss. */
  lemma CountsBytesInjective<D(!new), V, C, A>(layout: Layout<D, V, C, A>, m: Counts, n: Counts)
    requires layout.Ok() && CountsBytes(layout, m) == CountsBytes(layout, n)
    ensures m == n
  {
    KeysAreKeys(layout, m);
    KeysAreKeys(layout, n);
    var o, p := layout.keys(m.Keys), layout.keys(n.Keys);
    SplitUnique(Word(|m|, 8), Concat(EncodeEntry, Entries(o, m)), Word(|n|, 8), Concat(EncodeEntry, Entries(p, n)));
    EntriesInjective(Entries(o, m), Entries(p, n));
    EntriesDetermineCounts(o, m, p, n);
  }

  /** The digest does not collide on these two states. */
  ghost predicate NoCollision<D(!new), V, C, A>(layout: Layout<D, V, C, A>, sha: seq<byte> -> D, a: Hashed<D, V, C, A>, b: Hashed<D, V, C, A>)
    requires layout.Ok()
  {
    sha(Preimage(layout, a)) == sha(Preimage(layout, b)) ==> Preimage(layout, a) == Preimage(layout, b)
  }

  /** States that differ at most in their failure counts hash alike exactly when the counts agree. */
  lemma CountsAreHashed<D(!new), V, C, A>(layout: Layout<D, V, C, A>, sha: seq<byte> -> D, a: Hashed<D, V, C, A>, failures: Counts)
    requires layout.Ok() && NoCollision(layout, sha, a, a.(failures := failures))
    ensures sha(Preimage(layout, a)) == sha(Preimage(layout, a.(failures := failures))) <==> a.failures == failures
  {
    var b := a.(failures := failures);
    if sha(Preimage(layout, a)) == sha(Preimage(layout, b)) {
      var front := HeaderBytes(layout, a) + ListBytes(layout, a);
      assert Preimage(layout, a) == Preimage(layout, b);
      SplitUnique(front, CountsBytes(layout, a.failures), front, CountsBytes(layout, failures));
      CountsBytesInjective(layout, a.failures, failures);
    }
  }

  /** Equal app hashes: same height, same epoch, same state root, whatever follows. */
  lemma HeaderIsHashed<D(!new), V, C, A>(layout: Layout<D, V, C, A>, sha: seq<byte> -> D, a: Hashed<D, V, C, A>, b: Hashed<D, V, C, A>)
    requires layout.Ok() && NoCollision(layout, sha, a, b) && sha(Preimage(layout, a)) == sha(Preimage(layout, b))
    ensures a.height == b.height && a.epoch == b.epoch && a.root == b.root
  {
    SameHeaders(HeaderBytes(layout, a), ListBytes(layout, a), CountsBytes(layout, a.failures),
                HeaderBytes(layout, b), ListBytes(layout, b), CountsBytes(layout, b.failures));
    HeaderInjective(a.height, a.epoch, layout.digest(a.root), b.height, b.epoch, layout.digest(b.root));
  }

  lemma SameHeaders(a: seq<byte>, b: seq<byte>, c: seq<byte>, d: seq<byte>, e: seq<byte>, f: seq<byte>)
    requires |a| == |d| && a + b + c == d + e + f
    ensures a == d
  {
    assert a == (a + b + c)[..|a|] == (d + e + f)[..|d|] == d;
  }

  lemma HeaderInjective(h: int64, e: int64, d: seq<byte>, k: int64, f: int64, g: seq<byte>)
    requires |d| == |g|
    requires Int64Word(h) + Int64Word(e) + Prefixed(d) == Int64Word(k) + Int64Word(f) + Prefixed(g)
    ensures h == k && e == f && d == g
  {
    SplitUnique(Int64Word(h) + Int64Word(e), Prefixed(d), Int64Word(k) + Int64Word(f), Prefixed(g));
    SplitUnique(Int64Word(h), Int64Word(e), Int64Word(k), Int64Word(f));
    SplitUnique(Word(|d|, 8), d, Word(|g|, 8), g);
    Int64WordInjective(h, k);
    Int64WordInjective(e, f);
  }

  // ----- The two validator lists -----

  lemma {:induction false} ConcatAppends<T>(encode: T -> seq<byte>, a: seq<T>, b: seq<T>)
    ensures Concat(encode, a + b) == Concat(encode, a) + Concat(encode, b)
    decreases |b|
  {
    if b == [] {
      assert a + b == a;
    } else {
      var n := |b| - 1;
      ConcatAppends(encode, a, b[..n]);
      ConcatLast(encode, a + b);
      assert (a + b)[..|a + b| - 1] == a + b[..n] && (a + b)[|a + b| - 1] == b[n];
      Regroup(Concat(encode, a), Concat(encode, b[..n]), encode(b[n]));
    }
  }

  lemma ConcatLast<T>(encode: T -> seq<byte>, a: seq<T>)
    requires a != []
    ensures Concat(encode, a) == Concat(encode, a[..|a| - 1]) + encode(a[|a| - 1])
  {
  }

  lemma Regroup(a: seq<byte>, b: seq<byte>, c: seq<byte>)
    ensures a + b + c == a + (b + c)
  {
  }

  /**
   The two validator lists are written back to back without a count: with everything else equal, the
   preimage determines exactly their concatenation.
   */
  lemma ValidatorsHashedExactly<D(!new), V(!new), C, A>(layout: Layout<D, V, C, A>, a: Hashed<D, V, C, A>, validators: seq<V>, active: seq<V>)
    requires layout.Ok() && SelfDelimiting(layout.validator)
    ensures Preimage(layout, a.(validators := validators, active := active)) == Preimage(layout, a) <==>
            validators + active == a.validators + a.active
  {
    var b := a.(validators := validators, active := active);
    ConcatAppends(layout.validator, a.validators, a.active);
    ConcatAppends(layout.validator, validators, active);
    if Preimage(layout, b) == Preimage(layout, a) {
      Cancel(HeaderBytes(layout, a), Concat(layout.validator, validators + active),
             Concat(layout.validator, a.validators + a.active), Concat(layout.provider, a.providers),
             match a.challenger case None => [] case Some(c) => layout.challenger(c), CountsBytes(layout, a.failures));
      ConcatInjective(layout.validator, validators + active, a.validators + a.active);
    }
  }

  lemma Cancel(h: seq<byte>, x: seq<byte>, y: seq<byte>, p: seq<byte>, c: seq<byte>, k: seq<byte>)
    requires h + (x + p + c) + k == h + (y + p + c) + k
    ensures x == y
  {
    SplitUnique(h + (x + p + c), k, h + (y + p + c), k);
    SplitUnique(h, x + p + c, h, y + p + c);
    SplitUnique(x + p, c, y + p, c);
    SplitUnique(x, p, y, p);
  }

  /** Candidates have distinct keys, and every active validator has a candidate's key. */
  ghost predicate DrawnFrom<V, K>(key: V -> K, candidates: seq<V>, active: seq<V>) {
    && (forall i, j :: 0 <= i < j < |candidates| ==> key(candidates[i]) != key(candidates[j]))
    && forall k :: 0 <= k < |active| ==> HasKey(key, candidates, key(active[k]))
  }

  ghost predicate HasKey<V, K>(key: V -> K, candidates: seq<V>, k: K) {
    exists i :: 0 <= i < |candidates| && key(candidates[i]) == k
  }

  /** The first active key is one already seen. */
  lemma FirstActiveRepeats<V, K>(key: V -> K, v: seq<V>, a: seq<V>)
    requires DrawnFrom(key, v, a) && a != []
    ensures exists i :: 0 <= i < |v| && key((v + a)[i]) == key((v + a)[|v|])
  {
    assert HasKey(key, v, key(a[0]));
    var i :| 0 <= i < |v| && key(v[i]) == key(a[0]);
    assert (v + a)[i] == v[i] && (v + a)[|v|] == a[0];
  }

  /** No candidate's key is. */
  lemma CandidatesNeverRepeat<V, K>(key: V -> K, v: seq<V>, a: seq<V>, n: nat)
    requires DrawnFrom(key, v, a) && n < |v|
    ensures forall i :: 0 <= i < n ==> key((v + a)[i]) != key((v + a)[n])
  {
    assert forall i :: 0 <= i <= n ==> (v + a)[i] == v[i];
  }

  /** So the place where the candidates stop is visible in the concatenation. */
  lemma SplitIsVisible<V, K>(key: V -> K, v: seq<V>, a: seq<V>, w: seq<V>, b: seq<V>)
    requires DrawnFrom(key, v, a) && DrawnFrom(key, w, b) && v + a == w + b
    ensures v == w && a == b
  {
    if |v| < |w| {
      CandidatesNeverRepeat(key, w, b, |v|);
      FirstActiveRepeats(key, v, a);
    } else if |w| < |v| {
      CandidatesNeverRepeat(key, v, a, |w|);
      FirstActiveRepeats(key, w, b);
    } else {
      SplitUnique(v, a, w, b);
    }
  }

  /** So among states whose active validators are drawn from distinct candidates, both lists are hashed. */
  lemma ActiveListIsHashed<D(!new), V(!new), C, A, K>(layout: Layout<D, V, C, A>, key: V -> K, a: Hashed<D, V, C, A>,
                                                      validators: seq<V>, active: seq<V>)
    requires layout.Ok() && SelfDelimiting(layout.validator)
    requires DrawnFrom(key, a.validators, a.active) && DrawnFrom(key, validators, active)
    ensures Preimage(layout, a.(validators := validators, active := active)) == Preimage(layout, a) <==>
            validators == a.validators && active == a.active
  {
    ValidatorsHashedExactly(layout, a, validators, active);
    if validators + active == a.validators + a.active {
      SplitIsVisible(key, validators, active, a.validators, a.active);
    }
  }

  // ----- The layout, spelled out -----

  /** Least significant byte first: read backwards, the bytes are the number's digits in base 256. */
  lemma {:induction false} WordIsPositional(x: nat, width: nat)
    requires x < Pow256(width)
    ensures LittleEndianValue(Word(x, width)) == x
    decreases width
  {
    if width > 0 {
      WordIsPositional(x / 256, width - 1);
      var tail := Word(x / 256, width - 1);
      assert Word(x, width)[1..] == tail;
      PositionalSnoc(256, Reversed(tail), x % 256);
    }
  }

  lemma Int64WordValue(x: int64)
    ensures LittleEndianValue(Int64Word(x)) == if x < 0 then x + 0x1_0000_0000_0000_0000 else x
  {
    Pow256Is64Bits();
    WordIsPositional(if x < 0 then x + TWO_64 else x, 8);
  }

  lemma LengthPrefix(bytes: seq<byte>)
    requires |bytes| < TWO_64
    ensures LittleEndianValue(Prefixed(bytes)[..8]) == |bytes| && Prefixed(bytes)[8..] == bytes
  {
    Pow256Is64Bits();
    WordIsPositional(|bytes|, 8);
  }

  /** Where height, epoch and state root sit, and in what order the lists and the counts follow. */
  lemma PreimageLayout<D(!new), V, C, A>(layout: Layout<D, V, C, A>, h: Hashed<D, V, C, A>)
    requires layout.Ok()
    ensures var p := Preimage(layout, h);
            && |p| >= 56
            && LittleEndianValue(p[..8]) == (if h.height < 0 then h.height + 0x1_0000_0000_0000_0000 else h.height)
            && LittleEndianValue(p[8..16]) == (if h.epoch < 0 then h.epoch + 0x1_0000_0000_0000_0000 else h.epoch)
            && LittleEndianValue(p[16..24]) == 32 && p[24..56] == layout.digest(h.root)
            && p[56..] == Concat(layout.validator, h.validators) + Concat(layout.validator, h.active) + Concat(layout.provider, h.providers)
                          + (match h.challenger case None => [] case Some(a) => layout.challenger(a)) + CountsBytes(layout, h.failures)
  {
    var digest := layout.digest(h.root);
    HeaderSlices(Int64Word(h.height), Int64Word(h.epoch), Prefixed(digest), ListBytes(layout, h) + CountsBytes(layout, h.failures));
    Regroup(HeaderBytes(layout, h), ListBytes(layout, h), CountsBytes(layout, h.failures));
    Int64WordValue(h.height);
    Int64WordValue(h.epoch);
    LengthPrefix(digest);
  }

  lemma HeaderSlices(a: seq<byte>, b: seq<byte>, c: seq<byte>, rest: seq<byte>)
    requires |a| == |b| == 8 && |c| == 40
    ensures var p := a + b + c + rest;
            p[..8] == a && p[8..16] == b && p[16..24] == c[..8] && p[24..56] == c[8..] && p[56..] == rest
  {
  }

  /** A count: the length of an address, the address, the number in four bytes. */
  lemma CountLayout(provider: Address, failures: uint32)
    ensures var e := CountBytes(provider, failures);
            && LittleEndianValue(e[..8]) == 20 && e[8..28] == provider && LittleEndianValue(e[28..]) == failures
  {
    var e := CountBytes(provider, failures);
    assert e[..8] == Prefixed(provider)[..8] && e[8..28] == Prefixed(provider)[8..] && e[28..] == Word(failures, 4);
    LengthPrefix(provider);
    assert Pow256(4) == 256 * 256 * 256 * 256 * Pow256(0);
    WordIsPositional(failures, 4);
  }

  ghost predicate AtOffset(bytes: seq<byte>, offset: nat, piece: seq<byte>) {
    exists front, back :: |front| == offset && bytes == front + piece + back
  }

  /** The counts: their number in eight bytes, then 32 bytes for each provider, in key order. */
  lemma CountsLayout<D(!new), V, C, A>(layout: Layout<D, V, C, A>, counts: Counts, k: nat)
    requires layout.Ok() && k < |layout.keys(counts.Keys)|
    ensures CountsBytes(layout, counts)[..8] == Word(|counts|, 8) && layout.keys(counts.Keys)[k] in counts
    ensures AtOffset(CountsBytes(layout, counts), 8 + 32 * k, CountBytes(layout.keys(counts.Keys)[k], counts[layout.keys(counts.Keys)[k]]))
  {
    KeysAreKeys(layout, counts);
    var entries := Entries(layout.keys(counts.Keys), counts);
    EntryAt(entries, k);
    BehindHead(Word(|counts|, 8), Concat(EncodeEntry, entries), Concat(EncodeEntry, entries[..k]), EncodeEntry(entries[k]),
               Concat(EncodeEntry, entries[k + 1..]));
  }

  lemma BehindHead(head: seq<byte>, tail: seq<byte>, front: seq<byte>, piece: seq<byte>, back: seq<byte>)
    requires tail == front + piece + back
    ensures (head + tail)[..|head|] == head && AtOffset(head + tail, |head| + |front|, piece)
  {
    assert head + tail == (head + front) + piece + back;
  }

  lemma EntryAt(entries: seq<Entry>, k: nat)
    requires k < |entries|
    ensures |Concat(EncodeEntry, entries[..k])| == 32 * k
    ensures Concat(EncodeEntry, entries) ==
            Concat(EncodeEntry, entries[..k]) + EncodeEntry(entries[k]) + Concat(EncodeEntry, entries[k + 1..])
  {
    EntriesWidth(entries[..k]);
    Around(entries, k);
    ConcatMiddle(EncodeEntry, entries[..k], entries[k], entries[k + 1..]);
  }

  lemma Around<T>(s: seq<T>, k: nat)
    requires k < |s|
    ensures s == s[..k] + ([s[k]] + s[k + 1..])
  {
  }

  lemma ConcatMiddle<T>(encode: T -> seq<byte>, front: seq<T>, x: T, back: seq<T>)
    ensures Concat(encode, front + ([x] + back)) == Concat(encode, front) + encode(x) + Concat(encode, back)
  {
    ConcatAppends(encode, front, [x] + back);
    ConcatAppends(encode, [x], back);
    ConcatOne(encode, x);
    Regroup(Concat(encode, front), encode(x), Concat(encode, back));
  }

  lemma ConcatOne<T>(encode: T -> seq<byte>, x: T)
    ensures Concat(encode, [x]) == encode(x)
  {
    assert Concat(encode, [x]) == Concat(encode, [x][..0]) + encode(x);
  }

  lemma {:induction false} EntriesWidth(entries: seq<Entry>)
    ensures |Concat(EncodeEntry, entries)| == 32 * |entries|
  {
    if entries != [] {
      EntriesWidth(entries[..|entries| - 1]);
    }
  }
}
