/** Exporting staged entries to local clients: GET serves an archive under an ETag, DELETE removes the
    entries of the archive served last. */
module MarExport {
  import opened Bytes
  import opened Decimals
  import opened ZipFormat
  import opened MarBatching

  /** A folder in the staging directory, listed oldest first. */
  datatype Folder = Folder(path: Path, entry: StagedEntry)
  datatype ExportInfo = ExportInfo(content: ZipContents, hash: seq<byte>)
  datatype Response = Response(status: nat, etag: Option<seq<byte>>, content: Option<ZipContents>)

  const QUOTE: byte := 34
  const DEFAULT_MAX_ZIP_FILE: nat := 10 * 1024 * 1024

  /** The 64-bit hash of a list of entry paths. */
  type Hasher = seq<Path> -> u64

  function Staged(folders: seq<Folder>): seq<StagedEntry> {
    seq(|folders|, k requires 0 <= k < |folders| => folders[k].entry)
  }

  function PathsOf(folders: seq<Folder>): set<Path> {
    set k | 0 <= k < |folders| :: folders[k].path
  }

  predicate StillValid(export_: ExportInfo, folders: seq<Folder>) {
    forall p :: p in export_.content.entryPaths ==> p in PathsOf(folders)
  }

  /** The first batch of what is staged, if there is any. */
  function PrepareNextExport(hasher: Hasher, folders: seq<Folder>): Option<ExportInfo> {
    var zips := AllContents(Greedy(Included(Staged(folders)), DEFAULT_MAX_ZIP_FILE));
    if zips == [] then None else Some(ExportInfo(zips[0], Digits(hasher(zips[0].entryPaths))))
  }

  /** The export that the next GET is about: the current one while all its entries exist. */
  function Refreshed(hasher: Hasher, folders: seq<Folder>, current: Option<ExportInfo>): Option<ExportInfo> {
    if current.Some? && StillValid(current.value, folders) then current else PrepareNextExport(hasher, folders)
  }

  function Quoted(hash: seq<byte>): seq<byte> {
    [QUOTE] + hash + [QUOTE]
  }

  /** Whether a GET has to list the staging directory, which can fail. */
  predicate MustList(folders: seq<Folder>, current: Option<ExportInfo>) {
    current.None? || !StillValid(current.value, folders)
  }

  const SERVER_ERROR := Response(500, None, None)

  function Answer(current: Option<ExportInfo>, acceptable: bool): Response {
    if !acceptable then Response(406, None, None)
    else
      match current
      case Some(e) => Response(200, Some(Quoted(e.hash)), Some(e.content))
      case None => Response(204, None, None)
  }

  function Without(folders: seq<Folder>, gone: set<Path>): seq<Folder> {
    if folders == [] then []
    else (if folders[0].path in gone then [] else [folders[0]]) + Without(folders[1..], gone)
  }

  // The paths that removal gets rid of: all but those whose removal fails.
  function Removable(paths: seq<Path>, failures: set<Path>): set<Path> {
    set p | p in paths && p !in failures
  }

  class StagingDirectory {
    var folders: seq<Folder>

    constructor (folders: seq<Folder>)
      ensures this.folders == folders
    {
      this.folders := folders;
    }

    method RemoveDirAll(path: Path)
      modifies this
      ensures folders == Without(old(folders), {path})
    {
      folders := Without(folders, {path});
    }
  }

  class MarExportHandler {
    const staging: StagingDirectory
    const hasher: Hasher
    var currentExport: Option<ExportInfo>

    ghost function State(): Server
      reads this, staging
    {
      Server(staging.folders, currentExport)
    }

    constructor (staging: StagingDirectory, hasher: Hasher)
      ensures this.staging == staging && this.hasher == hasher && currentExport == None
    {
      this.staging, this.hasher, this.currentExport := staging, hasher, None;
    }

    method HandleGetMar(acceptable: bool, lists: bool) returns (r: Response)
      modifies this
      ensures (State(), r) == Handle(hasher, old(State()), Get(acceptable, lists))
    {
      if currentExport.Some? && !StillValid(currentExport.value, staging.folders) {
        currentExport := None;
      }
      if currentExport.None? {
        if !lists {
          return SERVER_ERROR;
        }
        currentExport := PrepareNextExport(hasher, staging.folders);
      }
      r := Answer(currentExport, acceptable);
    }

    method HandleDelete(ifMatch: Option<seq<byte>>, failures: set<Path>) returns (r: Response)
      modifies this, staging
      ensures (State(), r) == Handle(hasher, old(State()), Delete(ifMatch, failures))
    {
      if currentExport.None? {
        return Response(404, None, None);
      }
      var export_ := currentExport.value;
      if ifMatch.Some? && ifMatch.value != export_.hash {
        return Response(412, None, None);
      }
      hide Without, Removable;
      var paths := export_.content.entryPaths;
      WithoutNone(staging.folders);
      RemovableStep(paths, failures, 0);
      for i := 0 to |paths|
        invariant staging.folders == Without(old(staging.folders), Removable(paths[..i], failures))
        invariant currentExport == old(currentExport)
      {
        RemovableStep(paths, failures, i);
        if paths[i] !in failures {
          staging.RemoveDirAll(paths[i]);
          WithoutTwice(old(staging.folders), Removable(paths[..i], failures), {paths[i]});
        }
      }
      assert paths[..|paths|] == paths;
      currentExport := None;
      return Response(204, None, None);
    }
  }

  lemma RemovableStep(paths: seq<Path>, failures: set<Path>, i: nat)
    requires i <= |paths|
    ensures i == 0 ==> Removable(paths[..i], failures) == {}
    ensures i < |paths| ==>
      var gone := Removable(paths[..i], failures);
      Removable(paths[..i + 1], failures) == if paths[i] in failures then gone else gone + {paths[i]}
  {
  }

  lemma {:induction false} WithoutNone(folders: seq<Folder>)
    ensures Without(folders, {}) == folders
  {
    if folders != [] {
      WithoutNone(folders[1..]);
    }
  }

  lemma {:induction false} WithoutTwice(folders: seq<Folder>, a: set<Path>, b: set<Path>)
    ensures Without(Without(folders, a), b) == Without(folders, a + b)
  {
    if folders != [] {
      WithoutTwice(folders[1..], a, b);
      var rest := Without(folders[1..], a);
      assert ([folders[0]] + rest)[1..] == rest;
      assert [] + rest == rest;
    }
  }

  // ---- the protocol ----

  datatype Server = Server(folders: seq<Folder>, current: Option<ExportInfo>)

  /** Requests of clients, and what else happens in the staging directory. A GET comes with whether its
      format is acceptable and whether the staging directory can be listed. */
  datatype Action =
    | Get(acceptable: bool, lists: bool)
    | Delete(ifMatch: Option<seq<byte>>, failures: set<Path>)
    | NewEntry(folder: Folder)
    | CleanerRemoves(paths: set<Path>)

  const NO_RESPONSE := Response(0, None, None)

  function Handle(hasher: Hasher, s: Server, action: Action): (Server, Response) {
    match action
    case Get(acceptable, lists) =>
      if MustList(s.folders, s.current) && !lists then (s.(current := None), SERVER_ERROR)
      else
        var current := Refreshed(hasher, s.folders, s.current);
        (s.(current := current), Answer(current, acceptable))
    case Delete(ifMatch, failures) =>
      if s.current.None? then (s, Response(404, None, None))
      else if ifMatch.Some? && ifMatch.value != s.current.value.hash then (s, Response(412, None, None))
      else
        var gone := Removable(s.current.value.content.entryPaths, failures);
        (Server(Without(s.folders, gone), None), Response(204, None, None))
    case NewEntry(folder) => (s.(folders := s.folders + [folder]), NO_RESPONSE)
    case CleanerRemoves(paths) => (s.(folders := Without(s.folders, paths)), NO_RESPONSE)
  }

  /** A run and every archive served in a 200 response, with the ETag it was served under. */
  datatype History = History(server: Server, served: set<(seq<byte>, ZipContents)>)

  function Run(hasher: Hasher, folders: seq<Folder>, actions: seq<Action>): History {
    if actions == [] then History(Server(folders, None), {})
    else
      var h := Run(hasher, folders, actions[..|actions| - 1]);
      var (s, r) := Handle(hasher, h.server, actions[|actions| - 1]);
      History(s, if r.status == 200 then h.served + {(r.etag.value, r.content.value)} else h.served)
  }

  /** What the client does with the ETag of a response before it sends it back. */
  function TrimFront(s: seq<byte>): seq<byte> {
    if s != [] && s[0] == QUOTE then TrimFront(s[1..]) else s
  }

  function TrimBack(s: seq<byte>): seq<byte> {
    if s != [] && s[|s| - 1] == QUOTE then TrimBack(s[..|s| - 1]) else s
  }

  function TrimQuotes(s: seq<byte>): seq<byte> {
    TrimBack(TrimFront(s))
  }

  lemma TrimQuoted(hash: seq<byte>)
    requires hash != [] && QUOTE !in hash
    ensures TrimQuotes(Quoted(hash)) == hash && Quoted(hash) != hash
  {
    var q, tail := Quoted(hash), hash + [QUOTE];
    assert q[0] == QUOTE && q[1..] == tail && |q| == |hash| + 2;
    assert hash[0] in hash && hash[|hash| - 1] in hash;
    assert TrimFront(tail) == tail;
    assert tail[..|tail| - 1] == hash && tail[|tail| - 1] == QUOTE;
    assert TrimBack(hash) == hash && TrimBack(tail) == TrimBack(hash);
    assert TrimFront(q) == TrimFront(tail);
  }

  lemma {:induction false} HashPlain(n: nat)
    ensures Digits(n) != [] && QUOTE !in Digits(n)
  {
    hide Digits, DigitsValue;
    DigitsRoundTrip(n);
  }

  lemma QuotedHasQuote(hash: seq<byte>)
    ensures QUOTE in Quoted(hash)
  {
    assert Quoted(hash)[0] == QUOTE;
  }

  ghost predicate Consistent(hasher: Hasher, h: History) {
    && (h.server.current.Some? ==>
          h.server.current.value.hash == Digits(hasher(h.server.current.value.content.entryPaths)))
    && (forall e :: e in h.served ==> e.0 == Quoted(Digits(hasher(e.1.entryPaths))))
  }

  lemma {:induction false} RunConsistent(hasher: Hasher, folders: seq<Folder>, actions: seq<Action>)
    ensures Consistent(hasher, Run(hasher, folders, actions))
    decreases |actions|
  {
    hide AllContents, Greedy, Included, Staged, Without, StillValid, Quoted, Digits;
    if actions != [] {
      RunConsistent(hasher, folders, actions[..|actions| - 1]);
    }
  }

  lemma {:induction false} WithoutExactly(folders: seq<Folder>, gone: set<Path>)
    ensures forall f :: f in Without(folders, gone) <==> f in folders && f.path !in gone
  {
    if folders != [] {
      WithoutExactly(folders[1..], gone);
      assert folders == [folders[0]] + folders[1..];
    }
  }

  /** After any interleaving of requests, new entries and cleaning, a DELETE that carries the trimmed
      ETag of an earlier 200 response is carried out if and only if the current export has the same
      hash; then exactly the removable entries of the current export go. Otherwise nothing changes. */
  lemma {:induction false} DeleteByHash(hasher: Hasher, folders: seq<Folder>, actions: seq<Action>,
                     etag: seq<byte>, content: ZipContents, failures: set<Path>)
    requires (etag, content) in Run(hasher, folders, actions).served
    ensures var s := Run(hasher, folders, actions).server;
      var (s', r) := Handle(hasher, s, Delete(Some(TrimQuotes(etag)), failures));
      && (r.status == 204 <==> s.current.Some?
                               && hasher(s.current.value.content.entryPaths) == hasher(content.entryPaths))
      && (r.status == 204 ==> s'.current == None && Removed(s.folders, s'.folders, s.current.value.content, failures))
      && (r.status != 204 ==> s' == s && r.status == if s.current.None? then 404 else 412)
  {
    hide Without, Digits, Quoted, TrimQuotes, Removable;
    RunConsistent(hasher, folders, actions);
    var s := Run(hasher, folders, actions).server;
    HashPlain(hasher(content.entryPaths));
    TrimQuoted(Digits(hasher(content.entryPaths)));
    if s.current.Some? {
      var paths := s.current.value.content.entryPaths;
      WithoutExactly(s.folders, Removable(paths, failures));
      RemovableExactly(paths, failures);
      if Digits(hasher(paths)) == Digits(hasher(content.entryPaths)) {
        DigitsInjective(hasher(paths), hasher(content.entryPaths));
      }
    }
  }

  /** Exactly the archive's entries are gone, but for those whose removal failed. */
  ghost predicate Removed(before: seq<Folder>, after: seq<Folder>, content: ZipContents, failures: set<Path>) {
    forall f :: f in after <==> f in before && (f.path in content.entryPaths ==> f.path in failures)
  }

  lemma RemovableExactly(paths: seq<Path>, failures: set<Path>)
    ensures forall p :: p in Removable(paths, failures) <==> p in paths && p !in failures
  {
  }

  /** Unless the archive served and the current one collide in the hash, such a DELETE removes exactly
      the archive served, if it is the current one, and answers 404 or 412 and removes nothing if it is
      not. */
  lemma {:induction false} DeleteOnlyWhatWasServed(hasher: Hasher, folders: seq<Folder>, actions: seq<Action>,
                                etag: seq<byte>, content: ZipContents, failures: set<Path>)
    requires (etag, content) in Run(hasher, folders, actions).served
    requires var current := Run(hasher, folders, actions).server.current;
      current.Some? && current.value.content.entryPaths != content.entryPaths ==>
        hasher(current.value.content.entryPaths) != hasher(content.entryPaths)
    ensures var s := Run(hasher, folders, actions).server;
      var (s', r) := Handle(hasher, s, Delete(Some(TrimQuotes(etag)), failures));
      && (r.status == 204 <==> s.current.Some? && s.current.value.content.entryPaths == content.entryPaths)
      && (r.status == 204 ==> s'.current == None && Removed(s.folders, s'.folders, content, failures))
      && (r.status != 204 ==> s' == s && r.status == if s.current.None? then 404 else 412)
  {
    hide Handle, TrimQuotes, Run;
    DeleteByHash(hasher, folders, actions, etag, content, failures);
  }

  /** The ETag sent back as it was received, quotes included, never matches: such a DELETE removes
      nothing. */
  lemma {:induction false} QuotedTagRefused(hasher: Hasher, folders: seq<Folder>, actions: seq<Action>,
                         etag: seq<byte>, content: ZipContents, failures: set<Path>)
    requires (etag, content) in Run(hasher, folders, actions).served
    ensures var s := Run(hasher, folders, actions).server;
      var (s', r) := Handle(hasher, s, Delete(Some(etag), failures));
      s' == s && r.status == if s.current.None? then 404 else 412
  {
    hide Digits;
    RunConsistent(hasher, folders, actions);
    QuotedHasQuote(Digits(hasher(content.entryPaths)));
    var s := Run(hasher, folders, actions).server;
    if s.current.Some? {
      HashPlain(hasher(s.current.value.content.entryPaths));
    }
  }

  /** Without an If-Match header a DELETE can remove what nobody was sent: a GET that is answered 406
      prepares an export all the same. */
  lemma {:induction false} UnservedRemoved(hasher: Hasher, folders: seq<Folder>, failures: set<Path>)
    requires PrepareNextExport(hasher, folders).Some?
    ensures var h := Run(hasher, folders, [Get(false, true)]);
      var (s', r) := Handle(hasher, h.server, Delete(None, failures));
      && h.served == {} && h.server.folders == folders && r.status == 204
      && Removed(folders, s'.folders, PrepareNextExport(hasher, folders).value.content, failures)
  {
    hide PrepareNextExport, Without, Removable;
    var paths := PrepareNextExport(hasher, folders).value.content.entryPaths;
    assert [Get(false, true)][..0] == [];
    WithoutExactly(folders, Removable(paths, failures));
    RemovableExactly(paths, failures);
  }

  /** The refused GET that prepared the current export, if no acceptable GET has served it since. */
  function Pending(hasher: Hasher, folders: seq<Folder>, actions: seq<Action>): (p: Option<nat>)
    ensures p.Some? ==> p.value < |actions|
  {
    if actions == [] then None
    else
      var n := |actions| - 1;
      var earlier, s := Pending(hasher, folders, actions[..n]), Run(hasher, folders, actions[..n]).server;
      match actions[n]
      case Get(acceptable, lists) =>
        if acceptable then None
        else if !MustList(s.folders, s.current) then earlier
        else if lists && PrepareNextExport(hasher, s.folders).Some? then Some(n)
        else None
      case Delete(ifMatch, _) =>
        if s.current.Some? && (ifMatch.None? || ifMatch.value == s.current.value.hash) then None else earlier
      case _ => earlier
  }

  function Key(e: ExportInfo): (seq<byte>, ZipContents) {
    (Quoted(e.hash), e.content)
  }

  /** Over any run: the current export is one that nobody was sent if and only if a refused GET prepared
      it, no acceptable GET came since, and the same archive had not been served before. */
  lemma {:induction false} UnservedExactly(hasher: Hasher, folders: seq<Folder>, actions: seq<Action>)
    ensures var h, p := Run(hasher, folders, actions), Pending(hasher, folders, actions);
      h.server.current.Some? ==>
        (Key(h.server.current.value) !in h.served
         <==> p.Some? && Key(h.server.current.value) !in Run(hasher, folders, actions[..p.value]).served)
    decreases |actions|
  {
    hide PrepareNextExport, Without, Removable, StillValid, Quoted;
    if actions != [] {
      var n := |actions| - 1;
      UnservedExactly(hasher, folders, actions[..n]);
      var p := Pending(hasher, folders, actions[..n]);
      assert p.Some? ==> actions[..n][..p.value] == actions[..p.value];
    }
  }

  /** So a DELETE without If-Match removes what nobody was sent exactly then. */
  lemma {:induction false} UnconditionalDelete(hasher: Hasher, folders: seq<Folder>, actions: seq<Action>,
                                               failures: set<Path>)
    ensures var h, p := Run(hasher, folders, actions), Pending(hasher, folders, actions);
      var (s', r) := Handle(hasher, h.server, Delete(None, failures));
      && (r.status == 204 <==> h.server.current.Some?) && (r.status != 204 ==> s' == h.server && r.status == 404)
      && (r.status == 204 ==>
            var e := h.server.current.value;
            && s'.current == None && Removed(h.server.folders, s'.folders, e.content, failures)
            && (Key(e) !in h.served <==> p.Some? && Key(e) !in Run(hasher, folders, actions[..p.value]).served))
  {
    hide Run, Pending, Key, Without, Removable;
    UnservedExactly(hasher, folders, actions);
    var s := Run(hasher, folders, actions).server;
    if s.current.Some? {
      var paths := s.current.value.content.entryPaths;
      WithoutExactly(s.folders, Removable(paths, failures));
      RemovableExactly(paths, failures);
    }
  }

  lemma {:induction false} NothingPending(hasher: Hasher, folders: seq<Folder>, actions: seq<Action>)
    requires forall a :: a in actions && a.Get? ==> a.acceptable
    ensures Pending(hasher, folders, actions) == None
    decreases |actions|
  {
    hide PrepareNextExport, StillValid, Run;
    if actions != [] {
      NothingPending(hasher, folders, actions[..|actions| - 1]);
      assert actions[|actions| - 1] in actions;
    }
  }

  /** In particular not if every GET was acceptable: then whatever is current has been served. */
  lemma {:induction false} AcceptableMeansServed(hasher: Hasher, folders: seq<Folder>, actions: seq<Action>)
    requires forall a :: a in actions && a.Get? ==> a.acceptable
    ensures var h := Run(hasher, folders, actions);
      h.server.current.Some? ==> Key(h.server.current.value) in h.served
  {
    hide Run, Pending, Key;
    NothingPending(hasher, folders, actions);
    UnservedExactly(hasher, folders, actions);
  }

  // ---- serving the same archive ----

  /** Actions that leave an archive alone: no DELETE that could match it, no cleaning of its entries. */
  predicate Harmless(action: Action, e: ExportInfo) {
    match action
    case Get(_, _) => true
    case Delete(ifMatch, _) => ifMatch.Some? && ifMatch.value != e.hash
    case NewEntry(_) => true
    case CleanerRemoves(paths) => forall p :: p in e.content.entryPaths ==> p !in paths
  }

  function HandleAll(hasher: Hasher, s: Server, actions: seq<Action>): Server {
    if actions == [] then s
    else Handle(hasher, HandleAll(hasher, s, actions[..|actions| - 1]), actions[|actions| - 1]).0
  }

  lemma HarmlessStep(hasher: Hasher, s: Server, action: Action, e: ExportInfo)
    requires s.current == Some(e) && StillValid(e, s.folders) && Harmless(action, e)
    ensures var s' := Handle(hasher, s, action).0;
      s'.current == Some(e) && StillValid(e, s'.folders)
  {
    hide Without;
    match action {
      case CleanerRemoves(paths) =>
        WithoutExactly(s.folders, paths);
        forall p | p in e.content.entryPaths
          ensures p in PathsOf(Without(s.folders, paths))
        {
          var k :| 0 <= k < |s.folders| && s.folders[k].path == p;
          assert s.folders[k] in Without(s.folders, paths);
        }
      case NewEntry(folder) =>
        forall p | p in e.content.entryPaths
          ensures p in PathsOf(s.folders + [folder])
        {
          var k :| 0 <= k < |s.folders| && s.folders[k].path == p;
          assert (s.folders + [folder])[k].path == p;
        }
      case _ =>
    }
  }

  /** Once an archive has been served, every later GET serves the same one under the same ETag as long
      as all its entries exist and no DELETE matched it. */
  lemma {:induction false} SameArchiveServed(hasher: Hasher, s: Server, actions: seq<Action>, e: ExportInfo)
    requires s.current == Some(e) && StillValid(e, s.folders)
    requires forall a :: a in actions ==> Harmless(a, e)
    ensures var s' := HandleAll(hasher, s, actions);
      && s'.current == Some(e) && StillValid(e, s'.folders)
      && Handle(hasher, s', Get(true, true)).1 == Response(200, Some(Quoted(e.hash)), Some(e.content))
    decreases |actions|
  {
    hide StillValid, PrepareNextExport, Without;
    if actions != [] {
      var n := |actions| - 1;
      SameArchiveServed(hasher, s, actions[..n], e);
      assert actions[n] in actions;
      HarmlessStep(hasher, HandleAll(hasher, s, actions[..n]), actions[n], e);
    }
  }

  /** What a GET comes to when the directory can be listed: the current export stays if all its entries
      exist; otherwise the first batch of the readable entries takes its place, with its paths and its
      files, if there are any; and the answer is by format and content, under the quoted decimal hash. */
  lemma GetAnswers(hasher: Hasher, s: Server, acceptable: bool)
    ensures var (s', r) := Handle(hasher, s, Get(acceptable, true));
      var entries := Included(Staged(s.folders));
      var stays := s.current.Some? && AllExist(s.current.value.content.entryPaths, s.folders);
      && s'.folders == s.folders
      && (if stays then s'.current == s.current
          else if entries == [] then s'.current == None
          else s'.current.Some? && IsFirstBatch(hasher, entries, s'.current.value))
      && r == if !acceptable then Response(406, None, None)
              else match s'.current
                case None => Response(204, None, None)
                case Some(e) => Response(200, Some([34] + e.hash + [34]), Some(e.content))
  {
    hide Greedy, FirstLen, Included, Staged, StillValid, FilesOf, Digits;
    var entries := Included(Staged(s.folders));
    if s.current.Some? {
      ValidExactly(s.current.value, s.folders);
    }
    if entries != [] {
      FirstOfGreedy(entries, DEFAULT_MAX_ZIP_FILE);
      InfosAreFiles(entries[..FirstLen(entries, DEFAULT_MAX_ZIP_FILE)]);
    } else {
      NothingToGroup(DEFAULT_MAX_ZIP_FILE);
    }
  }

  /** When the directory cannot be listed, a GET that has to is answered 500 and leaves no export; any
      other is answered as if it could be. */
  lemma ListingFails(hasher: Hasher, s: Server, acceptable: bool)
    ensures var (s', r) := Handle(hasher, s, Get(acceptable, false));
      if s.current.Some? && AllExist(s.current.value.content.entryPaths, s.folders)
      then (s', r) == Handle(hasher, s, Get(acceptable, true)) && s' == s
      else s' == Server(s.folders, None) && r == Response(500, None, None)
  {
    hide PrepareNextExport, StillValid;
    if s.current.Some? {
      ValidExactly(s.current.value, s.folders);
    }
  }

  ghost predicate Exists(p: Path, folders: seq<Folder>) {
    exists i :: 0 <= i < |folders| && folders[i].path == p
  }

  /** Every path is that of a staged folder. */
  ghost predicate AllExist(paths: seq<Path>, folders: seq<Folder>) {
    forall k :: 0 <= k < |paths| ==> Exists(paths[k], folders)
  }

  lemma ValidExactly(e: ExportInfo, folders: seq<Folder>)
    ensures StillValid(e, folders) <==> AllExist(e.content.entryPaths, folders)
  {
    hide PathsOf, Exists;
    var paths := e.content.entryPaths;
    forall p
      ensures p in PathsOf(folders) <==> Exists(p, folders)
    {
      PathStaged(p, folders);
    }
    assert forall k :: 0 <= k < |paths| ==> paths[k] in paths;
  }

  lemma PathStaged(p: Path, folders: seq<Folder>)
    ensures p in PathsOf(folders) <==> Exists(p, folders)
  {
  }

  /** The longest run of entries from the front that stays within ten megabytes, or the first one. */
  ghost predicate IsFirstBatch(hasher: Hasher, entries: seq<MarEntry>, e: ExportInfo)
    requires entries != []
  {
    var n, paths := |e.content.entryPaths|, e.content.entryPaths;
    && n == FirstLen(entries, 10_485_760)
    && (forall k :: 0 <= k < n ==> paths[k] == entries[k].path)
    && FilesOf(entries[..n], e.content.zipInfos)
    && e.hash == Digits(hasher(paths))
  }

  lemma {:induction false} FirstOfGreedy(entries: seq<MarEntry>, cap: nat)
    requires entries != []
    ensures Greedy(entries, cap) != [] && Greedy(entries, cap)[0] == entries[..FirstLen(entries, cap)]
  {
    hide FirstLen;
  }

  lemma {:induction false} NothingToGroup(cap: nat)
    ensures Greedy([], cap) == []
  {
  }

  /** The entries of the folders, in their order. */
  lemma StagedExactly(folders: seq<Folder>, k: nat)
    requires k < |folders|
    ensures |Staged(folders)| == |folders| && Staged(folders)[k] == folders[k].entry
  {
  }

  /** A 200 response is about the current export, and all its entries exist. */
  lemma ServedIsCurrent(hasher: Hasher, s: Server)
    requires forall k :: 0 <= k < |s.folders| && s.folders[k].entry.Readable? ==>
      s.folders[k].entry.entry.path == s.folders[k].path
    ensures var (s', r) := Handle(hasher, s, Get(true, true));
      r.status == 200 ==> s'.current.Some? && r.content == Some(s'.current.value.content)
                          && AllExist(s'.current.value.content.entryPaths, s'.folders)
  {
    hide Greedy, Included, AllContents, PathsOf;
    FirstBatchExists(s.folders, DEFAULT_MAX_ZIP_FILE);
    var (s', r) := Handle(hasher, s, Get(true, true));
    if s'.current.Some? {
      ValidExactly(s'.current.value, s'.folders);
    }
  }

  lemma {:induction false} IncludedFrom(folders: seq<Folder>, e: MarEntry)
    requires e in Included(Staged(folders))
    ensures exists k :: 0 <= k < |folders| && folders[k].entry == Readable(e)
    decreases |folders|
  {
    assert Staged(folders)[1..] == Staged(folders[1..]);
    if folders[0].entry == Readable(e) {
    } else {
      IncludedFrom(folders[1..], e);
      var k :| 0 <= k < |folders[1..]| && folders[1..][k].entry == Readable(e);
      assert folders[k + 1].entry == Readable(e);
    }
  }

  lemma {:induction false} FirstBatchExists(folders: seq<Folder>, cap: nat)
    requires forall k :: 0 <= k < |folders| && folders[k].entry.Readable? ==>
      folders[k].entry.entry.path == folders[k].path
    ensures var zips := AllContents(Greedy(Included(Staged(folders)), cap));
      zips != [] ==> forall p :: p in zips[0].entryPaths ==> p in PathsOf(folders)
  {
    var s := Included(Staged(folders));
    var groups := Greedy(s, cap);
    if groups != [] {
      assert groups[0] == s[..FirstLen(s, cap)];
      forall p | p in Contents(groups[0]).entryPaths
        ensures p in PathsOf(folders)
      {
        var i :| 0 <= i < |groups[0]| && groups[0][i].path == p;
        assert groups[0][i] in s;
        IncludedFrom(folders, groups[0][i]);
      }
    }
  }
}
