/**
  The Plex health probe (src/plex_checker.rs). Every network exchange is an
  input: the Plex server is a function from request URL to the outcome of
  that request, and the library listing arrives already parsed as the
  document's nodes in descendant order.
 */
module PlexProbe {
  import opened Wrappers
  import opened Decimal
  import opened Config
  import opened PlexUrl

  const PlexTokenParam: string := "X-Plex-Token"
  const LibrariesListPath: string := "library/sections/"
  const DirectoryTagName: string := "Directory"
  const StatusOk: nat := 200

  /** The checker's three immutable fields. */
  datatype PlexChecker = PlexChecker(baseUrl: string, plexToken: string, librariesToCheck: seq<string>)

  /**
    A node of the listing document: its local tag name (empty for nodes that
    are not elements) and its `key` and `title` attributes when present.
   */
  datatype Node = Node(name: string, key: Option<string>, title: Option<string>)

  /** The body of a 200 answer: unreadable, not well-formed XML, or a parsed document. */
  datatype Body = Unreadable | NotXml | Xml(nodes: seq<Node>)

  /** The outcome of one GET request. */
  datatype Reply = TransportError | Answer(status: nat, body: Body)

  /** A request succeeded: it was answered, with status exactly 200. */
  predicate Succeeds(reply: Reply) {
    reply.Answer? && reply.status == StatusOk
  }

  /** The Plex server as seen by the probe: what each URL answers. */
  type Server = string -> Reply

  /** `PlexChecker::new`: fails with the DNS exit status when the domain does not resolve. */
  function NewPlexChecker(plex: PlexConfig, lookup: Result<seq<string>, ()>): (r: Result<PlexChecker, nat>)
    ensures r.Err? <==> lookup.Err? || |lookup.value| == 0
    ensures r.Err? ==> r.error == DnsFailureExitCode
    ensures r.Ok? ==> (plex.ssl <==> StartsWith(r.value.baseUrl, HttpsPrefix))
    ensures r.Ok? ==>
              SplitBaseUrl(r.value.baseUrl)
              == Some(BaseUrlParts(plex.ssl, ReplaceDots(lookup.value[0]), plex.certificateUuid, plex.port))
    ensures r.Ok? ==> r.value.plexToken == plex.plexToken && r.value.librariesToCheck == plex.libraries
  {
    match GetBasePlexUrl(plex, lookup)
    case Err(code) => Err(code)
    case Ok(url) => Ok(PlexChecker(url, plex.plexToken, plex.libraries))
  }

  // ---------------------------------------------------------------------
  // Request URLs
  // ---------------------------------------------------------------------

  function TokenQuery(checker: PlexChecker): string {
    "?" + PlexTokenParam + "=" + checker.plexToken
  }

  /** `<base>?X-Plex-Token=<token>` */
  function IndexUrl(checker: PlexChecker): string {
    checker.baseUrl + TokenQuery(checker)
  }

  /** `<base>library/sections/?X-Plex-Token=<token>` */
  function LibrariesListUrl(checker: PlexChecker): string {
    checker.baseUrl + LibrariesListPath + TokenQuery(checker)
  }

  /** `<base>library/sections/<id>/all?X-Plex-Token=<token>` */
  function LibraryDetailsUrl(checker: PlexChecker, id: U64): string {
    checker.baseUrl + LibrariesListPath + DecimalString(id) + "/all" + TokenQuery(checker)
  }

  function DetailsUrls(checker: PlexChecker, ids: seq<U64>): (urls: seq<string>)
    ensures |urls| == |ids|
    ensures forall k :: 0 <= k < |ids| ==> urls[k] == LibraryDetailsUrl(checker, ids[k])
  {
    seq(|ids|, k requires 0 <= k < |ids| => LibraryDetailsUrl(checker, ids[k]))
  }

  /**
    The three kinds of request go to three different URLs, and different
    library ids to different URLs: a server answering per URL answers each
    request of one probe on its own.
   */
  lemma RequestUrlsDistinct(checker: PlexChecker, id: U64, id': U64)
    ensures IndexUrl(checker) != LibrariesListUrl(checker)
    ensures IndexUrl(checker) != LibraryDetailsUrl(checker, id)
    ensures LibrariesListUrl(checker) != LibraryDetailsUrl(checker, id)
    ensures LibraryDetailsUrl(checker, id) == LibraryDetailsUrl(checker, id') ==> id == id'
  {
    var b := |checker.baseUrl|;
    var p := |LibrariesListPath|;
    var index, list, details := IndexUrl(checker), LibrariesListUrl(checker), LibraryDetailsUrl(checker, id);
    assert index[b] == '?' && list[b] == 'l' && details[b] == 'l';
    assert list[b + p] == '?';
    assert details[b + p] == DecimalString(id)[0];
    if details == LibraryDetailsUrl(checker, id') {
      DetailsUrlInjective(checker, id, id');
    }
  }

  lemma DetailsUrlInjective(checker: PlexChecker, id: U64, id': U64)
    requires LibraryDetailsUrl(checker, id) == LibraryDetailsUrl(checker, id')
    ensures id == id'
  {
    var prefix := checker.baseUrl + LibrariesListPath;
    var d, d' := DecimalString(id), DecimalString(id');
    assert |d| == |d'|;
    MiddleOf(prefix, d, "/all", TokenQuery(checker));
    MiddleOf(prefix, d', "/all", TokenQuery(checker));
    DecimalStringInjective(id, id');
  }

  /** The second piece of a four-part concatenation, recovered by slicing. */
  lemma MiddleOf(prefix: string, middle: string, tail: string, query: string)
    ensures (prefix + middle + tail + query)[|prefix|..|prefix| + |middle|] == middle
  {
  }
  // ---------------------------------------------------------------------
  // The library listing
  // ---------------------------------------------------------------------

  predicate IsDirectory(node: Node) {
    node.name == DirectoryTagName
  }

  predicate HasKeyAndTitle(node: Node) {
    node.key.Some? && node.title.Some?
  }

  /** Every `Directory` node carries both a `key` and a `title`. */
  predicate DirectoriesComplete(nodes: seq<Node>) {
    forall i :: 0 <= i < |nodes| && IsDirectory(nodes[i]) ==> HasKeyAndTitle(nodes[i])
  }

  /** A complete `Directory` whose title is one of the configured libraries. */
  predicate IsConfigured(libraries: seq<string>, node: Node) {
    IsDirectory(node) && HasKeyAndTitle(node) && node.title.value in libraries
  }

  /** The `key` texts of the configured directories, in document order. */
  function ConfiguredKeys(libraries: seq<string>, nodes: seq<Node>): seq<string> {
    if nodes == [] then []
    else
      var last := nodes[|nodes| - 1];
      ConfiguredKeys(libraries, nodes[..|nodes| - 1])
      + if IsConfigured(libraries, last) then [last.key.value] else []
  }

  /** Parses every key, or gives `None` when one of them is not a u64. */
  function ParseKeys(keys: seq<string>): (r: Option<seq<U64>>)
    ensures r.Some? <==> forall k :: 0 <= k < |keys| ==> ParseU64(keys[k]).Some?
    ensures r.Some? ==> |r.value| == |keys|
    ensures r.Some? ==> forall k :: 0 <= k < |keys| ==> ParseU64(keys[k]) == Some(r.value[k])
  {
    if keys == [] then Some([])
    else
      match ParseKeys(keys[..|keys| - 1])
      case None => None
      case Some(ids) =>
        match ParseU64(keys[|keys| - 1])
        case None => None
        case Some(id) => Some(ids + [id])
  }

  /**
    What the walk over the document yields: the configured library ids in
    document order, or an error when some `Directory` lacks a key or a
    title, or when the key of a configured directory is not a u64.
   */
  function DirectoryIds(libraries: seq<string>, nodes: seq<Node>): Result<seq<U64>, ()> {
    if !DirectoriesComplete(nodes) then Err(())
    else
      match ParseKeys(ConfiguredKeys(libraries, nodes))
      case None => Err(())
      case Some(ids) => Ok(ids)
  }

  /** What `list_libraries_ids` returns for a given answer to the listing request. */
  function LibraryListing(libraries: seq<string>, reply: Reply): Result<seq<U64>, ()> {
    match reply
    case TransportError => Err(())
    case Answer(status, body) =>
      if status != StatusOk then Err(())
      else
        match body
        case Unreadable => Err(())
        case NotXml => Err(())
        case Xml(nodes) => DirectoryIds(libraries, nodes)
  }

  function Listing(checker: PlexChecker, server: Server): Result<seq<U64>, ()> {
    LibraryListing(checker.librariesToCheck, server(LibrariesListUrl(checker)))
  }

  lemma {:induction false} ConfiguredKeysAppend(libraries: seq<string>, a: seq<Node>, b: seq<Node>)
    ensures ConfiguredKeys(libraries, a + b) == ConfiguredKeys(libraries, a) + ConfiguredKeys(libraries, b)
    decreases |b|
  {
    if b != [] {
      assert (a + b)[..|a + b| - 1] == a + b[..|b| - 1];
      ConfiguredKeysAppend(libraries, a, b[..|b| - 1]);
    } else {
      assert a + b == a;
    }
  }

  lemma ParseKeysSnoc(keys: seq<string>, key: string)
    ensures ParseKeys(keys + [key])
            == if ParseKeys(keys).Some? && ParseU64(key).Some?
               then Some(ParseKeys(keys).value + [ParseU64(key).value]) else None
  {
    assert (keys + [key])[..|keys|] == keys;
  }

  lemma DirectoriesCompleteAppend(a: seq<Node>, b: seq<Node>)
    ensures DirectoriesComplete(a + b) <==> DirectoriesComplete(a) && DirectoriesComplete(b)
  {
    if DirectoriesComplete(a + b) {
      forall i | 0 <= i < |a| && IsDirectory(a[i]) ensures HasKeyAndTitle(a[i]) {
        assert (a + b)[i] == a[i];
      }
      forall i | 0 <= i < |b| && IsDirectory(b[i]) ensures HasKeyAndTitle(b[i]) {
        assert (a + b)[|a| + i] == b[i];
      }
    }
    if DirectoriesComplete(a) && DirectoriesComplete(b) {
      forall i | 0 <= i < |a + b| && IsDirectory((a + b)[i]) ensures HasKeyAndTitle((a + b)[i]) {
        if i < |a| { assert (a + b)[i] == a[i]; } else { assert (a + b)[i] == b[i - |a|]; }
      }
    }
  }

  lemma ConfiguredKeysStep(libraries: seq<string>, nodes: seq<Node>, i: nat)
    requires i < |nodes|
    ensures IsConfigured(libraries, nodes[i]) ==>
              ConfiguredKeys(libraries, nodes[..i + 1]) == ConfiguredKeys(libraries, nodes[..i]) + [nodes[i].key.value]
    ensures !IsConfigured(libraries, nodes[i]) ==>
              ConfiguredKeys(libraries, nodes[..i + 1]) == ConfiguredKeys(libraries, nodes[..i])
  {
    assert nodes[..i + 1][..i] == nodes[..i];
    assert ConfiguredKeys(libraries, nodes[..i]) + [] == ConfiguredKeys(libraries, nodes[..i]);
  }

  lemma DirectoriesCompleteStep(nodes: seq<Node>, i: nat)
    requires i < |nodes| && DirectoriesComplete(nodes[..i])
    requires IsDirectory(nodes[i]) ==> HasKeyAndTitle(nodes[i])
    ensures DirectoriesComplete(nodes[..i + 1])
  {
    assert nodes[..i + 1] == nodes[..i] + [nodes[i]];
    DirectoriesCompleteAppend(nodes[..i], [nodes[i]]);
  }

  /**
    The loop of `list_libraries_ids` over the document's nodes: a `Directory`
    without key or title is an error; a configured one contributes its key,
    parsed as a u64, or is an error when the key does not parse.
   */
  method CollectLibraryIds(libraries: seq<string>, nodes: seq<Node>) returns (result: Result<seq<U64>, ()>)
    ensures result == DirectoryIds(libraries, nodes)
  {
    var ids: seq<U64> := [];
    var i := 0;
    while i < |nodes|
      invariant 0 <= i <= |nodes|
      invariant DirectoriesComplete(nodes[..i])
      invariant ParseKeys(ConfiguredKeys(libraries, nodes[..i])) == Some(ids)
    {
      var node := nodes[i];
      ConfiguredKeysStep(libraries, nodes, i);
      if node.name == DirectoryTagName {
        if node.key.None? || node.title.None? {
          IncompleteDirectoryAt(libraries, nodes, i);
          return Err(());
        }
        if node.title.value in libraries {
          var parsed := ParseU64(node.key.value);
          if parsed.None? {
            UnparsableConfiguredKeyFails(libraries, nodes, i);
            return Err(());
          }
          ParseKeysSnoc(ConfiguredKeys(libraries, nodes[..i]), node.key.value);
          ids := ids + [parsed.value];
        }
      }
      DirectoriesCompleteStep(nodes, i);
      i := i + 1;
    }
    assert nodes[..i] == nodes;
    result := Ok(ids);
  }

  /**
    `list_libraries_ids`: one request; anything but a 200 answer whose body
    reads and parses as XML is an error, before any node is looked at.
   */
  method ListLibrariesIds(checker: PlexChecker, server: Server)
    returns (result: Result<seq<U64>, ()>, ghost requested: seq<string>)
    ensures requested == [LibrariesListUrl(checker)]
    ensures result == Listing(checker, server)
    ensures !Succeeds(server(LibrariesListUrl(checker))) ==> result.Err?
  {
    var url := LibrariesListUrl(checker);
    requested := [url];
    var reply := server(url);
    if reply.TransportError? || reply.status != StatusOk {
      return Err(()), requested;
    }
    if !reply.body.Xml? {
      return Err(()), requested;
    }
    result := CollectLibraryIds(checker.librariesToCheck, reply.body.nodes);
  }

  // ---------------------------------------------------------------------
  // The checks
  // ---------------------------------------------------------------------

  /** The library check passes: the listing succeeded and every listed library answers 200. */
  predicate LibrariesListable(checker: PlexChecker, server: Server) {
    match Listing(checker, server)
    case Err(_) => false
    case Ok(ids) => forall k :: 0 <= k < |ids| ==> Succeeds(server(LibraryDetailsUrl(checker, ids[k])))
  }

  /** The verdict of one probe: the base index answers 200 and the library check passes. */
  predicate PlexUp(checker: PlexChecker, server: Server) {
    Succeeds(server(IndexUrl(checker))) && LibrariesListable(checker, server)
  }

  /** `check_base_index_status`: one request to the base URL. */
  method CheckBaseIndexStatus(checker: PlexChecker, server: Server)
    returns (ok: bool, ghost requested: seq<string>)
    ensures requested == [IndexUrl(checker)]
    ensures ok <==> Succeeds(server(IndexUrl(checker)))
  {
    var url := IndexUrl(checker);
    requested := [url];
    var reply := server(url);
    if reply.TransportError? {
      return false, requested;
    }
    if reply.status != StatusOk {
      return false, requested;
    }
    return true, requested;
  }

  /**
    The loop of `check_libraries_enum_status`: one request per id, in
    order, stopping at the first that is not answered with status 200.
   */
  method CheckEachLibrary(checker: PlexChecker, server: Server, ids: seq<U64>)
    returns (ok: bool, ghost requested: seq<string>)
    ensures ok <==> forall k :: 0 <= k < |ids| ==> Succeeds(server(LibraryDetailsUrl(checker, ids[k])))
    ensures requested <= DetailsUrls(checker, ids)
    ensures forall j :: 0 <= j < |requested| - 1 ==> Succeeds(server(requested[j]))
    ensures ok ==> requested == DetailsUrls(checker, ids)
    ensures !ok ==> |requested| >= 1 && !Succeeds(server(requested[|requested| - 1]))
  {
    ghost var urls := DetailsUrls(checker, ids);
    requested := [];
    for k := 0 to |ids|
      invariant requested == urls[..k]
      invariant forall j :: 0 <= j < k ==> Succeeds(server(LibraryDetailsUrl(checker, ids[j])))
    {
      var url := LibraryDetailsUrl(checker, ids[k]);
      requested := requested + [url];
      assert requested == urls[..k + 1];
      var reply := server(url);
      if reply.TransportError? || reply.status != StatusOk {
        return false, requested;
      }
    }
    assert urls[..|ids|] == urls;
    ok := true;
  }

  /**
    `check_libraries_enum_status`: the listing, then one request per listed
    library in order, stopping at the first that does not answer 200.
   */
  method CheckLibrariesEnumStatus(checker: PlexChecker, server: Server)
    returns (ok: bool, ghost requested: seq<string>)
    ensures ok <==> LibrariesListable(checker, server)
    ensures Listing(checker, server) == Ok([]) ==> ok
    ensures |requested| >= 1 && requested[0] == LibrariesListUrl(checker)
    ensures Listing(checker, server).Err? ==> requested == [LibrariesListUrl(checker)]
    ensures Listing(checker, server).Ok? ==> requested[1..] <= DetailsUrls(checker, Listing(checker, server).value)
    ensures ok ==> requested[1..] == DetailsUrls(checker, Listing(checker, server).value)
    ensures forall j :: 1 <= j < |requested| - 1 ==> Succeeds(server(requested[j]))
    ensures !ok && Listing(checker, server).Ok? ==>
              |requested| >= 2 && !Succeeds(server(requested[|requested| - 1]))
  {
    var listing;
    listing, requested := ListLibrariesIds(checker, server);
    if listing.Err? {
      return false, requested;
    }
    ghost var details;
    ok, details := CheckEachLibrary(checker, server, listing.value);
    requested := requested + details;
    assert requested[1..] == details;
  }

  /**
    `check_plex_up`. Rust futures do nothing until awaited, so the library
    check runs only after the base index check has answered 200.
   */
  method CheckPlexUp(checker: PlexChecker, server: Server)
    returns (up: bool, ghost requested: seq<string>)
    ensures up <==> PlexUp(checker, server)
    ensures |requested| >= 1 && requested[0] == IndexUrl(checker)
    ensures !Succeeds(server(IndexUrl(checker))) ==> !up && requested == [IndexUrl(checker)]
    ensures Succeeds(server(IndexUrl(checker))) ==>
              |requested| >= 2 && requested[1] == LibrariesListUrl(checker)
  {
    var baseOk, libsOk;
    ghost var more;
    baseOk, requested := CheckBaseIndexStatus(checker, server);
    if !baseOk {
      return false, requested;
    }
    libsOk, more := CheckLibrariesEnumStatus(checker, server);
    requested := requested + more;
    if !libsOk {
      return false, requested;
    }
    return true, requested;
  }

  // ---------------------------------------------------------------------
  // Properties of the listing and of the verdict
  // ---------------------------------------------------------------------

  /** One `Directory` without a key or a title fails the listing, whatever else the document holds. */
  lemma IncompleteDirectoryAt(libraries: seq<string>, nodes: seq<Node>, i: nat)
    requires i < |nodes| && IsDirectory(nodes[i]) && !HasKeyAndTitle(nodes[i])
    ensures DirectoryIds(libraries, nodes) == Err(())
  {
  }

  /** A configured `Directory` whose key is not a u64 fails the listing. */
  lemma UnparsableConfiguredKeyFails(libraries: seq<string>, nodes: seq<Node>, i: nat)
    requires i < |nodes| && IsConfigured(libraries, nodes[i]) && ParseU64(nodes[i].key.value).None?
    ensures DirectoryIds(libraries, nodes) == Err(())
  {
    var keys := ConfiguredKeys(libraries, nodes[..i]);
    ConfiguredKeysStep(libraries, nodes, i);
    assert nodes == nodes[..i + 1] + nodes[i + 1..];
    ConfiguredKeysAppend(libraries, nodes[..i + 1], nodes[i + 1..]);
    assert ConfiguredKeys(libraries, nodes)[|keys|] == nodes[i].key.value;
  }

  /**
    A complete `Directory` whose title is not configured changes nothing,
    even when its key is not a number.
   */
  lemma UnconfiguredDirectoryIgnored(libraries: seq<string>, before: seq<Node>, node: Node, after: seq<Node>)
    requires IsDirectory(node) && HasKeyAndTitle(node) && node.title.value !in libraries
    ensures DirectoryIds(libraries, before + [node] + after) == DirectoryIds(libraries, before + after)
  {
    var with, without := before + [node] + after, before + after;
    ConfiguredKeysAppend(libraries, before + [node], after);
    ConfiguredKeysAppend(libraries, before, after);
    assert (before + [node])[..|before|] == before;
    assert ConfiguredKeys(libraries, with) == ConfiguredKeys(libraries, without);
    DirectoriesCompleteAppend(before + [node], after);
    DirectoriesCompleteAppend(before, [node]);
    DirectoriesCompleteAppend(before, after);
  }

  /** A configured title that no directory of the document carries contributes nothing. */
  lemma {:induction false} UnmatchedTitleIgnored(libraries: seq<string>, title: string, nodes: seq<Node>)
    requires forall i :: 0 <= i < |nodes| ==> nodes[i].title != Some(title)
    ensures DirectoryIds(libraries + [title], nodes) == DirectoryIds(libraries, nodes)
  {
    ConfiguredKeysSameTitles(libraries, title, nodes);
  }

  lemma {:induction false} ConfiguredKeysSameTitles(libraries: seq<string>, title: string, nodes: seq<Node>)
    requires forall i :: 0 <= i < |nodes| ==> nodes[i].title != Some(title)
    ensures ConfiguredKeys(libraries + [title], nodes) == ConfiguredKeys(libraries, nodes)
    decreases |nodes|
  {
    if nodes != [] {
      var last := nodes[|nodes| - 1];
      assert last.title != Some(title);
      assert IsConfigured(libraries + [title], last) == IsConfigured(libraries, last);
      ConfiguredKeysSameTitles(libraries, title, nodes[..|nodes| - 1]);
    }
  }

  /** A `Directory` without a key or a title in a 200 listing makes the whole probe down. */
  lemma IncompleteDirectoryMeansDown(checker: PlexChecker, server: Server, i: nat)
    requires server(LibrariesListUrl(checker)).Answer?
    requires server(LibrariesListUrl(checker)).body.Xml?
    requires i < |server(LibrariesListUrl(checker)).body.nodes|
    requires IsDirectory(server(LibrariesListUrl(checker)).body.nodes[i])
    requires !HasKeyAndTitle(server(LibrariesListUrl(checker)).body.nodes[i])
    ensures !PlexUp(checker, server)
  {
    var nodes := server(LibrariesListUrl(checker)).body.nodes;
    assert !DirectoriesComplete(nodes);
  }

  /**
    Libraries "Movies" and "TV" configured; the listing holds Directory
    (key 1, "Movies") and Directory (key 2, "Music"). Only id 1 is listed,
    and the verdict depends on the index and on `.../sections/1/all` alone.
   */
  lemma ListingExample(checker: PlexChecker, server: Server)
    requires checker.librariesToCheck == ["Movies", "TV"]
    requires server(LibrariesListUrl(checker))
             == Answer(200, Xml([Node("Directory", Some("1"), Some("Movies")),
                                 Node("Directory", Some("2"), Some("Music"))]))
    ensures Listing(checker, server) == Ok([1])
    ensures PlexUp(checker, server) <==>
              Succeeds(server(IndexUrl(checker))) && Succeeds(server(LibraryDetailsUrl(checker, 1)))
  {
    ExampleDirectoryIds();
  }

  lemma ExampleDirectoryIds()
    ensures DirectoryIds(["Movies", "TV"], [Node("Directory", Some("1"), Some("Movies")),
                                            Node("Directory", Some("2"), Some("Music"))]) == Ok([1])
  {
    var libraries := ["Movies", "TV"];
    var movies := Node("Directory", Some("1"), Some("Movies"));
    var music := Node("Directory", Some("2"), Some("Music"));
    var nodes := [movies, music];
    assert nodes[..1] == [movies] && [movies][..0] == [];
    assert IsConfigured(libraries, movies) by { assert libraries[0] == "Movies"; }
    assert !IsConfigured(libraries, music) by {
      assert "Music" != libraries[0] && "Music" != libraries[1];
    }
    assert ConfiguredKeys(libraries, [movies]) == ["1"];
    assert ConfiguredKeys(libraries, nodes) == ["1"];
    assert DirectoriesComplete(nodes);
    ParseOneKey();
  }

  lemma ParseOneKey()
    ensures ParseKeys(["1"]) == Some([1])
  {
    assert ParseU64("1") == Some(1) by { assert "1"[..0] == ""; }
    var r := ParseKeys(["1"]);
    assert r.Some? && |r.value| == 1 && r.value[0] == 1;
    assert r.value == [1];
  }
}
