/** CADO paths: the typed constructor, the string parser, and epoch record names. */
module CadoPaths {
  import opened Prelude
  import opened Text
  import Hex
  import opened NamespaceRules

  datatype CadoType =
    | Account | StakingAccount | StorageStakingAccount | CadoMap | AppStateTip | SnapshotMetadata
    | SnapshotChunk | ChunkReference | AppStateSnapshot | EpochRecord | Namespace

  const SCOPE_ELD_ROOT: string := "@eld"

  function TypeName(t: CadoType): string {
    match t
    case Account => "account"
    case StakingAccount => "staking_account"
    case StorageStakingAccount => "storage_staking_account"
    case CadoMap => "cado_map"
    case AppStateTip => "app_state_tip"
    case SnapshotMetadata => "snapshot_metadata"
    case SnapshotChunk => "snapshot_chunk"
    case ChunkReference => "chunk_reference"
    case AppStateSnapshot => "app_state_snapshot"
    case EpochRecord => "epoch_record"
    case Namespace => "namespace"
  }


  /** The valid type a segment names, if any. */
  function ParseType(s: string): (t: Option<CadoType>)
    ensures t.Some? ==> TypeName(t.value) == s
  {
    if s == "account" then Some(Account)
    else if s == "staking_account" then Some(StakingAccount)
    else if s == "storage_staking_account" then Some(StorageStakingAccount)
    else if s == "cado_map" then Some(CadoMap)
    else if s == "app_state_tip" then Some(AppStateTip)
    else if s == "snapshot_metadata" then Some(SnapshotMetadata)
    else if s == "snapshot_chunk" then Some(SnapshotChunk)
    else if s == "chunk_reference" then Some(ChunkReference)
    else if s == "app_state_snapshot" then Some(AppStateSnapshot)
    else if s == "epoch_record" then Some(EpochRecord)
    else if s == "namespace" then Some(Namespace)
    else None
  }

  lemma TypeNamesRoundTrip(t: CadoType)
    ensures ParseType(TypeName(t)) == Some(t) && '/' !in TypeName(t)
  {
    TypeNamesParse(t);
  }

  lemma TypeNamesParse(t: CadoType)
    ensures ParseType(TypeName(t)) == Some(t)
  {
  }

  predicate IsAccountLike(t: CadoType) {
    t.Account? || t.StakingAccount? || t.StorageStakingAccount?
  }

  /** Node-local objects that never enter chain state. */
  predicate IsInfrastructureType(t: CadoType) {
    t.AppStateTip? || t.AppStateSnapshot? || t.SnapshotMetadata? || t.SnapshotChunk?
  }

  datatype CadoPath = CadoPath(path: string, scope: string, type_: CadoType, name: string)

  datatype PathKey =
    | Name(name: string)
    | NameAndId(name: string, id: string)
    | AddressKey(address: Address)
    | AddressAndId(address: Address, id: string)
    | NamespaceSlug(slug: string)

  predicate ValidHex(s: string, n: nat) {
    StartsWith(s, "0x") && Hex.Decode(s[2..]).Some? && |Hex.Decode(s[2..]).value| == n
  }

  predicate ValidName(t: CadoType, name: string) {
    if t.Namespace? then ValidSlug(name) else ValidHex(name, if IsAccountLike(t) then 20 else 32)
  }

  function Print(scope: string, t: CadoType, name: string): string {
    "/" + scope + "/" + TypeName(t) + "/" + name
  }

  /** The typed constructor for `@eld` paths. Which keys fit depends on the type. */
  function New(t: CadoType, key: PathKey): Option<CadoPath> {
    var name: Option<string> :=
      match key
      case NamespaceSlug(slug) => if t.Namespace? then Some(slug) else None
      case Name(name) => if t.Namespace? then None else Some(name)
      case AddressKey(a) => if IsAccountLike(t) then Some(Hex.AddressText(a)) else None
      case NameAndId(_, _) => None
      case AddressAndId(_, _) => None;
    if name.Some? && ValidName(t, name.value) then
      Some(CadoPath(Print(SCOPE_ELD_ROOT, t, name.value), SCOPE_ELD_ROOT, t, name.value))
    else None
  }

  /** At most `n` pieces; the last one keeps any further separators. */
  function SplitN(s: string, n: nat, sep: char): (parts: seq<string>)
    requires n > 0
    ensures |parts| > 0
  {
    if n == 1 || sep !in s then [s]
    else
      var i := IndexOf(s, sep);
      [s[..i]] + SplitN(s[i + 1..], n - 1, sep)
  }

  function IndexOf(s: string, c: char): (i: nat)
    requires c in s
    ensures i < |s| && s[i] == c && c !in s[..i]
  {
    if s[0] == c then 0 else 1 + IndexOf(s[1..], c)
  }

  /** The string parser, for any `@` scope. */
  function Parse(path: string): Option<CadoPath> {
    if !StartsWith(path, "/") then None
    else
      var parts := SplitN(path[1..], 4, '/');
      if |parts| < 3 then None
      else
        var scope := parts[0];
        if !StartsWith(scope, "@") || |scope| <= 1 then None
        else
          match ParseType(parts[1])
          case None => None
          case Some(t) =>
            if |parts| != 3 || !ValidName(t, parts[2]) then None
            else Some(CadoPath(path, scope, t, parts[2]))
  }

  // ----- What the parser accepts -----

  lemma {:induction false} SplitNIsSplit(s: string, n: nat, sep: char)
    requires n > 0
    ensures |Split(s, sep)| <= n ==> SplitN(s, n, sep) == Split(s, sep)
    ensures |Split(s, sep)| > n ==> |SplitN(s, n, sep)| == n
    decreases n
  {
    if sep !in s {
      SplitAtom(s, sep);
    } else {
      var i := IndexOf(s, sep);
      SplitCons(s[..i], s[i + 1..], sep);
      assert s == s[..i] + [sep] + s[i + 1..];
      if n > 1 {
        SplitNIsSplit(s[i + 1..], n - 1, sep);
      }
    }
  }

  lemma ThreePieces(a: string, b: string, c: string)
    requires '/' !in a && '/' !in b && '/' !in c
    ensures Split(a + "/" + b + "/" + c, '/') == [a, b, c]
  {
    assert a + "/" + b + "/" + c == a + ['/'] + (b + "/" + c);
    assert b + "/" + c == b + ['/'] + c;
    SplitCons(a, b + "/" + c, '/');
    SplitCons(b, c, '/');
    SplitAtom(c, '/');
  }

  lemma NamesHaveNoSlash(t: CadoType, name: string)
    requires ValidName(t, name)
    ensures '/' !in name
  {
    if t.Namespace? {
      assert forall i :: 0 <= i < |name| ==> IsSlugChar(name[i]);
    } else {
      Hex.DecodeAcceptsExactly(name[2..]);
      assert name == "0x" + name[2..];
    }
  }

  /** A scope, type and name that fit together. */
  ghost predicate WellFormed(scope: string, t: CadoType, name: string) {
    StartsWith(scope, "@") && |scope| > 1 && '/' !in scope && ValidName(t, name)
  }

  /** The parser accepts exactly the printed well-formed triples, and returns that triple. */
  lemma ParseAcceptsExactly(path: string, c: CadoPath)
    ensures Parse(path) == Some(c) <==>
            WellFormed(c.scope, c.type_, c.name) && path == Print(c.scope, c.type_, c.name) && c.path == path
  {
    if WellFormed(c.scope, c.type_, c.name) && path == Print(c.scope, c.type_, c.name) && c.path == path {
      PrintedPathParses(c.scope, c.type_, c.name);
    }
    if Parse(path) == Some(c) {
      ParsedPathIsPrinted(path);
    }
  }

  lemma PrintedPathParses(scope: string, t: CadoType, name: string)
    requires WellFormed(scope, t, name)
    ensures Parse(Print(scope, t, name)) == Some(CadoPath(Print(scope, t, name), scope, t, name))
  {
    var path := Print(scope, t, name);
    TypeNamesRoundTrip(t);
    NamesHaveNoSlash(t, name);
    PrintedPieces(scope, t, name);
    assert SplitN(path[1..], 4, '/') == [scope, TypeName(t), name];
  }

  lemma PrintedPieces(scope: string, t: CadoType, name: string)
    requires '/' !in scope && '/' !in TypeName(t) && '/' !in name
    ensures SplitN(Print(scope, t, name)[1..], 4, '/') == [scope, TypeName(t), name]
  {
    var body := scope + "/" + TypeName(t) + "/" + name;
    assert Print(scope, t, name)[1..] == body;
    ThreePieces(scope, TypeName(t), name);
    SplitNIsSplit(body, 4, '/');
  }

  lemma ParsedPieces(path: string)
    requires Parse(path).Some?
    ensures var c := Parse(path).value;
            Split(path[1..], '/') == [c.scope, TypeName(c.type_), c.name]
  {
    SplitNIsSplit(path[1..], 4, '/');
  }

  lemma ParsedPathIsPrinted(path: string)
    requires Parse(path).Some?
    ensures var c := Parse(path).value;
            c.path == path == Print(c.scope, c.type_, c.name) && WellFormed(c.scope, c.type_, c.name)
  {
    var c := Parse(path).value;
    ParsedPieces(path);
    assert path == "/" + path[1..];
    PiecesPrint(path[1..], c.scope, TypeName(c.type_), c.name);
    PrintHasBody(c.scope, c.type_, c.name);
  }

  lemma PiecesPrint(body: string, scope: string, t: string, name: string)
    requires Split(body, '/') == [scope, t, name]
    ensures body == scope + "/" + t + "/" + name && '/' !in scope
  {
    assert Split(body, '/')[0] == scope;
    JoinInvertsSplit(body, '/');
    JoinThree(scope, t, name);
  }

  lemma PrintHasBody(scope: string, t: CadoType, name: string)
    ensures Print(scope, t, name) == "/" + (scope + "/" + TypeName(t) + "/" + name)
  {
    var n := TypeName(t);
    assert "/" + scope + "/" + n + "/" + name == "/" + (scope + "/" + n + "/" + name);
  }

  lemma JoinThree(a: string, b: string, c: string)
    ensures Join([a, b, c], '/') == a + "/" + b + "/" + c
  {
    assert [a, b, c][1..] == [b, c] && [b, c][1..] == [c];
    assert Join([b, c], '/') == b + ['/'] + c;
  }

  // ----- Constructor against parser -----

  /** Whatever the constructor builds, the parser reads back as the same value. */
  lemma ParseInvertsNew(t: CadoType, key: PathKey)
    requires New(t, key).Some?
    ensures Parse(New(t, key).value.path) == New(t, key)
  {
    PrintedPathParses(SCOPE_ELD_ROOT, t, New(t, key).value.name);
  }

  /** Every parsed `@eld` path is one the constructor builds from its type and name. */
  lemma NewRebuildsParsed(path: string)
    requires Parse(path).Some? && Parse(path).value.scope == SCOPE_ELD_ROOT
    ensures var c := Parse(path).value;
            New(c.type_, if c.type_.Namespace? then NamespaceSlug(c.name) else Name(c.name)) == Some(c)
  {
    ParsedPathIsPrinted(path);
  }

  /** Distinct triples print to distinct strings. */
  lemma PathsAreInjective(s1: string, t1: CadoType, n1: string, s2: string, t2: CadoType, n2: string)
    requires WellFormed(s1, t1, n1) && WellFormed(s2, t2, n2) && Print(s1, t1, n1) == Print(s2, t2, n2)
    ensures s1 == s2 && t1 == t2 && n1 == n2
  {
    PrintedPathParses(s1, t1, n1);
    PrintedPathParses(s2, t2, n2);
  }

  predicate IsInfrastructurePath(path: string) {
    Parse(path).Some? && IsInfrastructureType(Parse(path).value.type_)
  }

  // ----- Epoch record names -----

  /** `width` lowercase hex digits, leading zeros included. */
  function HexDigits(n: nat, width: nat): (s: string)
    ensures |s| == width && Hex.AllHex(s)
    decreases width
  {
    if width == 0 then "" else HexDigits(n / 16, width - 1) + [Hex.Digit(n % 16)]
  }

  function HexValue(s: string): nat
    requires Hex.AllHex(s)
  {
    if s == "" then 0 else 16 * HexValue(s[..|s| - 1]) + Hex.DigitValue(s[|s| - 1])
  }

  function Pow16(k: nat): (p: nat)
    ensures p > 0
  {
    if k == 0 then 1 else 16 * Pow16(k - 1)
  }

  function EpochName(epoch: int64): Option<string> {
    if epoch < 0 then None else Some("0x" + HexDigits(epoch, 64))
  }

  /** `None` for anything but `0x` and 64 hex digits whose value fits a non-negative `i64`. */
  function EpochFromName(name: string): Option<int64> {
    if !StartsWith(name, "0x") || |name| != 66 || !(forall i :: 2 <= i < 66 ==> Hex.IsHexDigit(name[i])) then None
    else
      assert forall i :: 0 <= i < 64 ==> name[2..][i] == name[i + 2];
      var value := HexValue(name[2..]);
      if value >= TWO_63 then None else Some(value)
  }

  lemma {:induction false} HexValueOfDigits(n: nat, width: nat)
    requires n < Pow16(width)
    ensures HexValue(HexDigits(n, width)) == n
    decreases width
  {
    if width > 0 {
      HexValueOfDigits(n / 16, width - 1);
      var s := HexDigits(n, width);
      assert s[..width - 1] == HexDigits(n / 16, width - 1);
    }
  }

  lemma {:induction false} HexDigitsOfValue(s: string)
    requires Hex.AllHex(s)
    ensures HexDigits(HexValue(s), |s|) == LowerAll(s)
    decreases |s|
  {
    if s != "" {
      var n := |s| - 1;
      HexDigitsOfValue(s[..n]);
      HexValueLast(s);
      LastDigit(HexValue(s), HexValue(s[..n]), s[n], n);
      assert LowerAll(s) == LowerAll(s[..n]) + [Lower(s[n])];
    }
  }

  lemma HexValueLast(s: string)
    requires Hex.AllHex(s) && s != ""
    ensures HexValue(s) == 16 * HexValue(s[..|s| - 1]) + Hex.DigitValue(s[|s| - 1])
  {
  }

  lemma LastDigit(value: nat, v: nat, c: char, width: nat)
    requires Hex.IsHexDigit(c) && value == 16 * v + Hex.DigitValue(c)
    ensures HexDigits(value, width + 1) == HexDigits(v, width) + [Lower(c)]
  {
    Hex.DigitLower(c);
    DivMod16(value, v, Hex.DigitValue(c));
  }

  lemma DivMod16(value: nat, v: nat, digit: nat)
    requires digit < 16 && value == 16 * v + digit
    ensures value / 16 == v && value % 16 == digit
  {
  }

  lemma {:induction false} Pow16Grows(j: nat, k: nat)
    requires j <= k
    ensures Pow16(j) <= Pow16(k)
    decreases k - j
  {
    if j < k {
      Pow16Grows(j, k - 1);
    }
  }

  lemma Pow16Of16()
    ensures Pow16(16) == TWO_64
  {
    assert Pow16(4) == 16 * 16 * 16 * 16;
    assert Pow16(8) == 16 * 16 * 16 * 16 * Pow16(4);
    assert Pow16(12) == 16 * 16 * 16 * 16 * Pow16(8);
    assert Pow16(16) == 16 * 16 * 16 * 16 * Pow16(12);
  }

  /** Every non-negative epoch number survives printing and parsing. */
  lemma EpochNamesRoundTrip(epoch: int64)
    requires epoch >= 0
    ensures EpochFromName(EpochName(epoch).value) == Some(epoch)
  {
    Pow16Of16();
    Pow16Grows(16, 64);
    HexValueOfDigits(epoch, 64);
    var name := EpochName(epoch).value;
    assert name[2..] == HexDigits(epoch, 64);
  }

  /** A name reads as an epoch exactly when it is that epoch's printed name up to the case of its digits. */
  lemma EpochFromNameExactly(name: string, epoch: int64)
    ensures EpochFromName(name) == Some(epoch) <==>
            epoch >= 0 && StartsWith(name, "0x") && LowerAll(name) == EpochName(epoch).value
  {
    if EpochFromName(name) == Some(epoch) {
      assert forall i :: 0 <= i < 64 ==> name[2..][i] == name[i + 2];
      HexDigitsOfValue(name[2..]);
      assert LowerAll(name) == LowerAll(name[..2]) + LowerAll(name[2..]);
      assert LowerAll("0x") == "0x";
    }
    if epoch >= 0 && StartsWith(name, "0x") && LowerAll(name) == EpochName(epoch).value {
      CaseVariantParses(name, epoch);
    }
  }

  lemma CaseVariantParses(name: string, epoch: int64)
    requires epoch >= 0 && StartsWith(name, "0x") && LowerAll(name) == EpochName(epoch).value
    ensures EpochFromName(name) == Some(epoch)
  {
    var digits := name[2..];
    CaseVariantDigits(name, epoch);
    HexDigitsOfValue(digits);
    DigitsDetermineValue(HexValue(digits), epoch, digits);
    assert forall i :: 2 <= i < 66 ==> name[i] == digits[i - 2];
  }

  lemma CaseVariantDigits(name: string, epoch: int64)
    requires epoch >= 0 && StartsWith(name, "0x") && LowerAll(name) == EpochName(epoch).value
    ensures |name| == 66 && Hex.AllHex(name[2..]) && LowerAll(name[2..]) == HexDigits(epoch, 64)
  {
    var printed, digits := EpochName(epoch).value, HexDigits(epoch, 64);
    assert |name| == |LowerAll(name)| == 66;
    forall i | 0 <= i < 64
      ensures Lower(name[2..][i]) == digits[i] && Hex.IsHexDigit(name[2..][i])
    {
      assert Lower(name[i + 2]) == printed[i + 2] == digits[i];
    }
  }

  /** Equal digit strings of a bounded value: equal values. */
  lemma DigitsDetermineValue(v: nat, epoch: int64, digits: string)
    requires Hex.AllHex(digits) && |digits| == 64 && v == HexValue(digits) && epoch >= 0
    requires HexDigits(v, 64) == HexDigits(epoch, 64)
    ensures v == epoch
  {
    HexValueBound(digits);
    HexValueOfDigits(v, 64);
    Pow16Of16();
    Pow16Grows(16, 64);
    HexValueOfDigits(epoch, 64);
  }

  lemma {:induction false} HexValueBound(s: string)
    requires Hex.AllHex(s)
    ensures HexValue(s) < Pow16(|s|)
  {
    if s != "" {
      HexValueBound(s[..|s| - 1]);
    }
  }

  /** An epoch name is a valid record name, so the epoch record path exists. */
  lemma EpochNameIsPathName(epoch: int64)
    requires epoch >= 0
    ensures New(EpochRecord, Name(EpochName(epoch).value)).Some?
  {
    var name := EpochName(epoch).value;
    assert name[2..] == HexDigits(epoch, 64);
    assert name[..2] == "0x";
    Hex.DecodeAcceptsExactly(name[2..]);
  }

  const LATEST: string := "0x5" + "e1e2bcac305958b27077ca136f35f0abae7cf38c9af678f7d220ed0cb51d4f8"

  /** The alias of the latest record is never taken for an epoch number. */
  lemma LatestIsNoEpoch()
    ensures EpochFromName(LATEST).None?
  {
    if EpochFromName(LATEST).Some? {
      var e := EpochFromName(LATEST).value;
      EpochFromNameExactly(LATEST, e);
      assert LATEST[2] == "0x5"[2] == '5';
      assert EpochName(e).value[2] == HexDigits(e, 64)[0];
      LeadingZeros(e, 64);
      assert false;
    }
  }

  /** A number of at most 16 hex digits printed in more has a leading zero. */
  lemma {:induction false} LeadingZeros(n: nat, width: nat)
    requires n < TWO_63 && width > 16
    ensures HexDigits(n, width)[0] == '0'
  {
    Pow16Of16();
    LeadingZero(n, width, 16);
  }

  lemma {:induction false} LeadingZero(n: nat, width: nat, k: nat)
    requires n < Pow16(k) && width > k
    ensures HexDigits(n, width)[0] == '0'
    decreases width
  {
    if width > 1 {
      LeadingZero(n / 16, width - 1, if k == 0 then 0 else k - 1);
    }
  }

  // ----- Which names and keys fit which type -----

  /** A hex name: `0x` and the given number of digits, in any case. */
  ghost predicate HexName(s: string, digits: nat) {
    |s| == digits + 2 && s[..2] == "0x" && forall i :: 2 <= i < |s| ==> Hex.IsHexDigit(s[i])
  }

  lemma ValidHexExactly(s: string, n: nat)
    ensures ValidHex(s, n) <==> HexName(s, 2 * n)
  {
    if |s| >= 2 {
      var body := s[2..];
      Hex.DecodeAcceptsExactly(body);
      assert forall i :: 0 <= i < |body| ==> body[i] == s[i + 2];
      assert forall i :: 2 <= i < |s| ==> s[i] == body[i - 2];
    }
  }

  /** Accounts have 40-digit names, namespaces slugs, everything else 64-digit names. */
  lemma NamesByType(t: CadoType, name: string)
    ensures ValidName(t, name) <==>
            match t
            case Account => HexName(name, 40)
            case StakingAccount => HexName(name, 40)
            case StorageStakingAccount => HexName(name, 40)
            case Namespace => ValidSlug(name)
            case _ => HexName(name, 64)
  {
    ValidHexExactly(name, 20);
    ValidHexExactly(name, 32);
  }

  /** Which keys the constructor takes: slugs name namespaces, addresses accounts, names the rest; ids nothing. */
  lemma KeysByType(t: CadoType, name: string, id: string, a: Address)
    ensures New(t, NamespaceSlug(name)).Some? <==> t == Namespace && ValidSlug(name)
    ensures New(t, Name(name)).Some? <==> t != Namespace && Parse(Print("@eld", t, name)).Some?
    ensures New(t, AddressKey(a)).Some? <==> t == Account || t == StakingAccount || t == StorageStakingAccount
    ensures New(t, NameAndId(name, id)).None? && New(t, AddressAndId(a, id)).None?
  {
    SlugKeyExactly(t, name);
    NameKeyExactly(t, name);
    AddressKeyExactly(t, a);
  }

  lemma SlugKeyExactly(t: CadoType, name: string)
    ensures New(t, NamespaceSlug(name)).Some? <==> t == Namespace && ValidSlug(name)
  {
  }

  lemma NameKeyExactly(t: CadoType, name: string)
    ensures New(t, Name(name)).Some? <==> t != Namespace && Parse(Print("@eld", t, name)).Some?
  {
    if ValidName(t, name) {
      PrintedPathParses("@eld", t, name);
    }
    if Parse(Print("@eld", t, name)).Some? {
      ParsedNameIsValid(t, name);
    }
  }

  lemma AddressKeyExactly(t: CadoType, a: Address)
    ensures New(t, AddressKey(a)).Some? <==> t == Account || t == StakingAccount || t == StorageStakingAccount
  {
    AddressIsHexName(a);
    NamesByType(t, Hex.AddressText(a));
  }

  lemma AddressIsHexName(a: Address)
    ensures HexName(Hex.AddressText(a), 40)
  {
    var s := Hex.AddressText(a);
    assert s[..2] == "0x" && forall i :: 2 <= i < 42 ==> s[i] == Hex.Encode(a)[i - 2];
  }

  lemma ParsedNameIsValid(t: CadoType, name: string)
    requires Parse(Print("@eld", t, name)).Some?
    ensures ValidName(t, name)
  {
    var path := Print("@eld", t, name);
    var c := Parse(path).value;
    ParsedPieces(path);
    PrintHasBody("@eld", t, name);
    assert path[1..] == "@eld" + "/" + TypeName(t) + "/" + name;
    TypeNamesRoundTrip(t);
    TypeNamesRoundTrip(c.type_);
    ReadTwoWays(path[1..], TypeName(t), name, c.scope, TypeName(c.type_), c.name);
  }

  lemma ReadTwoWays(body: string, name: string, rest: string, scope: string, other: string, last: string)
    requires body == "@eld" + "/" + name + "/" + rest && '/' !in name
    requires Split(body, '/') == [scope, other, last]
    ensures name == other && rest == last
  {
    SplitCons("@eld", name + ['/'] + rest, '/');
    SplitCons(name, rest, '/');
    assert body == "@eld" + ['/'] + (name + ['/'] + rest);
    var parts := ["@eld", name] + Split(rest, '/');
    assert parts == [scope, other, last];
    assert parts[1] == name && parts[2..] == Split(rest, '/') && parts[2..] == [last];
    JoinInvertsSplit(rest, '/');
    assert Join([last], '/') == last;
  }

  /** The four node-local types, by name. */
  lemma InfrastructureByName(t: CadoType)
    ensures IsInfrastructureType(t) <==>
            TypeName(t) in ["app_state_tip", "app_state_snapshot", "snapshot_metadata", "snapshot_chunk"]
  {
    TypeNamesParse(t);
    assert ParseType("app_state_tip") == Some(AppStateTip) && ParseType("app_state_snapshot") == Some(AppStateSnapshot);
    assert ParseType("snapshot_metadata") == Some(SnapshotMetadata) && ParseType("snapshot_chunk") == Some(SnapshotChunk);
  }

  // ----- What an epoch name spells -----

  function DigitValues(s: string): (digits: seq<nat>)
    requires Hex.AllHex(s)
    ensures |digits| == |s| && forall i :: 0 <= i < |s| ==> digits[i] == Hex.DigitValue(s[i])
  {
    seq(|s|, i requires 0 <= i < |s| && Hex.IsHexDigit(s[i]) => Hex.DigitValue(s[i]))
  }

  lemma {:induction false} HexIsPositional(s: string)
    requires Hex.AllHex(s)
    ensures HexValue(s) == Positional(16, DigitValues(s))
  {
    if s != "" {
      var n := |s| - 1;
      HexIsPositional(s[..n]);
      assert DigitValues(s) == DigitValues(s[..n]) + [Hex.DigitValue(s[n])];
      PositionalSnoc(16, DigitValues(s[..n]), Hex.DigitValue(s[n]));
    }
  }

  /** An epoch's name: `0x` and 64 digits that spell it in base sixteen. */
  lemma EpochNameSpells(epoch: int64)
    requires epoch >= 0
    ensures var name := EpochName(epoch).value;
            HexName(name, 64) && Hex.AllHex(name[2..]) && Positional(16, DigitValues(name[2..])) == epoch
  {
    var name := EpochName(epoch).value;
    assert name[2..] == HexDigits(epoch, 64) && name[..2] == "0x";
    assert forall i :: 2 <= i < 66 ==> name[i] == name[2..][i - 2];
    Pow16Of16();
    Pow16Grows(16, 64);
    HexValueOfDigits(epoch, 64);
    HexIsPositional(name[2..]);
  }
}
