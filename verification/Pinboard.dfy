/** Pinboard post paths: what is printed for a post and where a request for that path is sent. */
module Pinboard {
  import opened Prelude
  import opened Text
  import Hex
  import opened NamespaceRules

  datatype Post = Post(messageId: string, signer: Address, namespace: Option<string>)

  function NamespaceContentPath(ns: string, messageId: string): string {
    "/@" + ns + "/" + messageId
  }

  /** `/@eld/pinboard/` */
  const PATH_PREFIX_PINBOARD: string := "/" + "@eld" + "/" + "pinboard" + "/"

  function EldPostPath(wallet: string, messageId: string): string {
    PATH_PREFIX_PINBOARD + "post" + "/" + wallet + "/" + messageId
  }

  /** The path shown for a stored post. */
  function ResponsePath(p: Post): string {
    match p.namespace
    case Some(ns) => NamespaceContentPath(ns, p.messageId)
    case None => EldPostPath(Hex.AddressText(p.signer), p.messageId)
  }

  function NonEmpty(parts: seq<string>): (r: seq<string>)
    ensures forall i :: 0 <= i < |r| ==> r[i] != "" && r[i] in parts
  {
    if parts == [] then []
    else if parts[0] == "" then NonEmpty(parts[1..])
    else [parts[0]] + NonEmpty(parts[1..])
  }

  /** The non-empty segments between slashes. */
  function Segments(path: string): (r: seq<string>)
    ensures forall i :: 0 <= i < |r| ==> r[i] != "" && '/' !in r[i]
  {
    NonEmpty(Split(path, '/'))
  }

  predicate UsesEldLookup(path: string) {
    Contains(path, "@eld")
  }

  datatype Target = EldPost(wallet: string, messageId: string) | NamespacePost(ns: string, messageId: string)

  function ParseNamespacePath(path: string): Option<Target> {
    var parts := Segments(path);
    if |parts| != 2 || !StartsWith(parts[0], "@") || |parts[0]| < 2 || !ValidUploadSlug(parts[0][1..]) then None
    else Some(NamespacePost(parts[0][1..], parts[1]))
  }

  function ParseEldPath(path: string): Option<Target> {
    var parts := Segments(path);
    if |parts| != 5 || parts[0] != "@eld" || parts[1] != "pinboard" || parts[2] != "post" then None
    else
      match Hex.DecodeFixed(20, parts[3])
      case None => None
      case Some(wallet) => Some(EldPost("0x" + Hex.Encode(wallet), parts[4]))
  }

  /** Any path that mentions `@eld` anywhere goes to the Eld lookup. */
  function Dispatch(path: string): Option<Target> {
    if UsesEldLookup(path) then ParseEldPath(path) else ParseNamespacePath(path)
  }

  function TargetOf(p: Post): Target {
    match p.namespace
    case Some(ns) => NamespacePost(ns, p.messageId)
    case None => EldPost(Hex.AddressText(p.signer), p.messageId)
  }

  /** When a post can be fetched by the path shown for it. */
  ghost predicate Addressable(p: Post) {
    && p.messageId != "" && '/' !in p.messageId
    && (p.namespace.Some? ==> !StartsWith(p.namespace.value, "eld") && !Contains(p.messageId, "@eld"))
  }

  // ----- Segments of printed paths -----

  lemma SegmentsCons(head: string, tail: string)
    requires '/' !in head
    ensures Segments(head + "/" + tail) == (if head == "" then [] else [head]) + Segments(tail)
  {
    SplitCons(head, tail, '/');
    assert head + "/" + tail == head + ['/'] + tail;
    assert ([head] + Split(tail, '/'))[1..] == Split(tail, '/');
  }

  lemma SegmentsAtom(s: string)
    requires '/' !in s && s != ""
    ensures Segments(s) == [s]
  {
    SplitAtom(s, '/');
    assert [s][1..] == [];
    assert NonEmpty([s]) == [s] + NonEmpty([s][1..]);
  }

  lemma NamespaceSegments(ns: string, messageId: string)
    requires ValidUploadSlug(ns) && messageId != "" && '/' !in messageId
    ensures Segments(NamespaceContentPath(ns, messageId)) == ["@" + ns, messageId]
  {
    var path := NamespaceContentPath(ns, messageId);
    assert '/' !in "@" + ns by {
      assert forall i :: 0 <= i < |ns| ==> IsLowerLetter(ns[i]);
    }
    assert path == "" + "/" + (("@" + ns) + "/" + messageId);
    SegmentsCons("", ("@" + ns) + "/" + messageId);
    SegmentsCons("@" + ns, messageId);
    SegmentsAtom(messageId);
  }

  lemma EldPathShape(wallet: string, messageId: string)
    ensures EldPostPath(wallet, messageId) ==
            "" + "/" + ("@eld" + "/" + ("pinboard" + "/" + ("post" + "/" + (wallet + "/" + messageId))))
  {
  }

  lemma EldSegments(wallet: string, messageId: string)
    requires '/' !in wallet && wallet != "" && messageId != "" && '/' !in messageId
    ensures Segments(EldPostPath(wallet, messageId)) == ["@eld", "pinboard", "post", wallet, messageId]
  {
    var t1 := wallet + "/" + messageId;
    var t2 := "post" + "/" + t1;
    var t3 := "pinboard" + "/" + t2;
    var t4 := "@eld" + "/" + t3;
    EldPathShape(wallet, messageId);
    SegmentsCons("", t4);
    SegmentsCons("@eld", t3);
    SegmentsCons("pinboard", t2);
    SegmentsCons("post", t1);
    SegmentsCons(wallet, messageId);
    SegmentsAtom(messageId);
  }

  // ----- Where `@eld` can occur -----

  lemma NamespacePathMentionsEld(ns: string, messageId: string)
    requires ValidUploadSlug(ns)
    ensures UsesEldLookup(NamespaceContentPath(ns, messageId)) <==> StartsWith(ns, "eld") || Contains(messageId, "@eld")
  {
    var path := NamespaceContentPath(ns, messageId);
    var m := |ns| + 3;
    assert path[m..] == messageId;
    if UsesEldLookup(path) {
      var i :| 0 <= i <= |path| && OccursAt(path, "@eld", i);
      assert path[i] == path[i..i + 4][0] == '@';
      OccurrenceIsOneOfTwo(ns, messageId, i);
    }
    if StartsWith(ns, "eld") {
      assert path[1..5] == "@" + ns[..3];
      assert OccursAt(path, "@eld", 1);
    }
    if Contains(messageId, "@eld") {
      var j :| 0 <= j <= |messageId| && OccursAt(messageId, "@eld", j);
      assert path[m + j..m + j + 4] == messageId[j..j + 4];
      assert OccursAt(path, "@eld", m + j);
    }
  }

  lemma OccurrenceIsOneOfTwo(ns: string, messageId: string, i: nat)
    requires ValidUploadSlug(ns) && OccursAt(NamespaceContentPath(ns, messageId), "@eld", i)
    requires NamespaceContentPath(ns, messageId)[i] == '@'
    ensures StartsWith(ns, "eld") || Contains(messageId, "@eld")
  {
    var path, m := NamespaceContentPath(ns, messageId), |ns| + 3;
    if i == 1 {
      assert path[1..5] == "@" + ns[..3];
      assert "@eld"[1..] == "eld" && ("@" + ns[..3])[1..] == ns[..3];
    } else {
      assert forall k :: 0 <= k < |ns| ==> path[k + 2] == ns[k] && IsLowerLetter(ns[k]);
      assert i >= m;
      assert path[i..i + 4] == messageId[i - m..i - m + 4];
      assert OccursAt(messageId, "@eld", i - m);
    }
  }

  // ----- Printing against dispatching -----

  lemma ParsedIdsAreSegments(path: string)
    ensures Dispatch(path).Some? ==> Dispatch(path).value.messageId != "" && '/' !in Dispatch(path).value.messageId
  {
  }

  lemma WalletReadsBack(a: Address)
    ensures Hex.DecodeFixed(20, Hex.AddressText(a)) == Some(a) && '/' !in Hex.AddressText(a)
  {
    Hex.DecodeFixedInvertsPrinting(a, "0x");
    assert forall i :: 0 <= i < |Hex.Encode(a)| ==> Hex.IsHexDigit(Hex.Encode(a)[i]);
  }

  /**
   A post is dispatched and parsed back to itself from the path shown for it exactly when it is
   addressable. So a namespace such as `eldorado` makes its posts unreachable by path.
   */
  lemma PathsLeadBackExactly(p: Post)
    requires p.namespace.Some? ==> ValidUploadSlug(p.namespace.value)
    ensures Dispatch(ResponsePath(p)) == Some(TargetOf(p)) <==> Addressable(p)
  {
    ParsedIdsAreSegments(ResponsePath(p));
    if p.messageId != "" && '/' !in p.messageId {
      match p.namespace
      case Some(ns) =>
        NamespacePathMentionsEld(ns, p.messageId);
        NamespaceSegments(ns, p.messageId);
        assert ("@" + ns)[1..] == ns;
      case None =>
        EldPathLeadsBack(p.signer, p.messageId);
    }
  }

  lemma MentionsEld(rest: string)
    ensures UsesEldLookup("" + "/" + ("@eld" + rest))
  {
    var path := "" + "/" + ("@eld" + rest);
    assert path[1..5] == "@eld";
    assert OccursAt(path, "@eld", 1);
  }

  lemma EldPathMentionsEld(wallet: string, messageId: string)
    ensures UsesEldLookup(EldPostPath(wallet, messageId))
  {
    EldPathShape(wallet, messageId);
    var rest := "/" + ("pinboard" + "/" + ("post" + "/" + (wallet + "/" + messageId)));
    assert "@eld" + "/" + ("pinboard" + "/" + ("post" + "/" + (wallet + "/" + messageId))) == "@eld" + rest;
    MentionsEld(rest);
  }

  lemma EldPathLeadsBack(signer: Address, messageId: string)
    requires messageId != "" && '/' !in messageId
    ensures Dispatch(EldPostPath(Hex.AddressText(signer), messageId)) == Some(EldPost(Hex.AddressText(signer), messageId))
  {
    var wallet := Hex.AddressText(signer);
    WalletReadsBack(signer);
    EldSegments(wallet, messageId);
    EldPathMentionsEld(wallet, messageId);
    FiveSegmentsParse(EldPostPath(wallet, messageId), wallet, signer, messageId);
  }

  lemma FiveSegmentsParse(path: string, wallet: string, signer: Address, messageId: string)
    requires Segments(path) == ["@eld", "pinboard", "post", wallet, messageId]
    requires Hex.DecodeFixed(20, wallet) == Some(signer)
    ensures ParseEldPath(path) == Some(EldPost("0x" + Hex.Encode(signer), messageId))
  {
    var parts := Segments(path);
    assert |parts| == 5 && parts[0] == "@eld" && parts[1] == "pinboard" && parts[2] == "post";
    assert parts[3] == wallet && parts[4] == messageId;
  }

  /** The concrete trap: a post in `eldorado`. */
  lemma EldoradoIsUnreachable(signer: Address)
    ensures ValidUploadSlug("eldorado")
    ensures Dispatch(ResponsePath(Post("m1", signer, Some("eldorado")))) == None
  {
    var p := Post("m1", signer, Some("eldorado"));
    assert "eldorado"[..3] == "eld";
    NamespacePathMentionsEld("eldorado", "m1");
    NamespaceSegments("eldorado", "m1");
  }

  /** The printed forms, spelled out. */
  lemma PrintedForms(messageId: string, signer: Address, ns: string)
    ensures ResponsePath(Post(messageId, signer, None)) == "/@eld/pinboard/post/0x" + Hex.Encode(signer) + "/" + messageId
    ensures ResponsePath(Post(messageId, signer, Some(ns))) == "/@" + ns + "/" + messageId
  {
    var wallet := Hex.AddressText(signer);
    assert PATH_PREFIX_PINBOARD + "post" + "/" == "/@eld/pinboard/post/";
    assert EldPostPath(wallet, messageId) == (PATH_PREFIX_PINBOARD + "post" + "/") + wallet + "/" + messageId;
    assert "/@eld/pinboard/post/" + wallet == "/@eld/pinboard/post/0x" + Hex.Encode(signer);
  }

  /** Whatever is dispatched has the segments of its target's printed path, up to the spelling of the wallet. */
  lemma DispatchedPathsArePrinted(path: string)
    requires Dispatch(path).Some?
    ensures match Dispatch(path).value
            case NamespacePost(ns, id) => ValidUploadSlug(ns) && !UsesEldLookup(path) && Segments(path) == Segments("/@" + ns + "/" + id)
            case EldPost(wallet, id) =>
              && UsesEldLookup(path) && |Segments(path)| == 5
              && Segments(path)[..3] == ["@eld", "pinboard", "post"] && Segments(path)[4] == id
              && Hex.DecodeFixed(20, Segments(path)[3]).Some? && wallet == "0x" + Hex.Encode(Hex.DecodeFixed(20, Segments(path)[3]).value)
  {
    var parts := Segments(path);
    match Dispatch(path).value
    case NamespacePost(ns, id) =>
      NamespaceSegments(ns, id);
      assert parts == ["@" + ns, id] by {
        assert parts[0] == parts[0][..1] + parts[0][1..];
      }
      assert NamespaceContentPath(ns, id) == "/@" + ns + "/" + id;
    case EldPost(wallet, id) =>
      assert parts[..3] == [parts[0], parts[1], parts[2]];
  }
}
