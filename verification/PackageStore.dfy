/** The per-user package store: install, remove and recover as sequences of single file-system
    steps, with a receipt as the commit point. A process may die after any step; `trace`
    keeps every state it could leave behind. */
module PackageStore {
  import opened Options

  const MAXIMUM_CATALOG_BYTES := 512 * 1024 * 1024
  const MAXIMUM_EXPANDED_BYTES := 128 * 1024 * 1024
  const MAXIMUM_RECEIPTS := 511

  type Size = n: nat | n <= MAXIMUM_EXPANDED_BYTES

  type Id = string
  type Version = string

  /** A directory tree as the bytes of its files. */
  type Tree = map<string, string>

  /** What an inspection report says about a package; `digest` is its package digest. */
  datatype Report = Report(id: Id, version: Version, digest: string, size: Size, dependencies: set<Id>)

  /** `inspect` is the one report a directory tree satisfies, if any: validation compares
      every file, the derived digest and the manifest with the receipt. */
  datatype Policy = Policy(inspect: Tree -> Option<Report>, builtins: set<Id>)

  /** Equal package digests mean equal trees. */
  ghost predicate CollisionFree(policy: Policy) {
    forall s, t | policy.inspect(s).Some? && policy.inspect(t).Some?
      && policy.inspect(s).value.digest == policy.inspect(t).value.digest :: s == t
  }

  datatype Entry = Directory(tree: Tree) | Irregular
  datatype Receipt = Readable(report: Report) | Damaged | Unsafe
  datatype Root = Safe(versions: map<Version, Entry>) | Escaping

  datatype Files = Files(
    receipts: map<Id, Receipt>,
    roots: map<Id, Root>,
    staging: map<string, Entry>,
    trash: map<string, Entry>,
    trashedRoots: map<string, Root>,
    trashedReceipts: map<string, Receipt>
  )

  datatype Place = Staged(name: string) | Trashed(name: string) | Installed(id: Id, version: Version)

  function Get(f: Files, p: Place): Option<Entry> {
    match p
    case Staged(n) => if n in f.staging then Some(f.staging[n]) else None
    case Trashed(n) => if n in f.trash then Some(f.trash[n]) else None
    case Installed(id, v) =>
      if id in f.roots && f.roots[id].Safe? && v in f.roots[id].versions then Some(f.roots[id].versions[v])
      else None
  }

  ghost predicate Writable(f: Files, p: Place) {
    p.Installed? ==> p.id in f.roots && f.roots[p.id].Safe?
  }

  ghost predicate Beside(p: Place, id: Id, keep: set<Version>) {
    p.Installed? && p.id == id && p.version !in keep
  }

  function Set<K, V>(m: map<K, V>, k: K, e: Option<V>): map<K, V> {
    if e.Some? then m[k := e.value] else m - {k}
  }

  /** The roots and receipts a removal has moved away are the same. */
  ghost predicate SameRetired(f: Files, g: Files) {
    f.trashedRoots == g.trashedRoots && f.trashedReceipts == g.trashedReceipts
  }

  function Put(f: Files, p: Place, e: Option<Entry>): (g: Files)
    requires Writable(f, p)
    ensures Writable(g, p) && Get(g, p) == e
    ensures forall q :: q != p ==> Get(g, q) == Get(f, q)
    ensures forall q :: Writable(f, q) ==> Writable(g, q)
    ensures g.receipts == f.receipts && SameRetired(f, g) && (!p.Installed? ==> g.roots == f.roots)
  {
    match p
    case Staged(n) => f.(staging := Set(f.staging, n, e))
    case Trashed(n) => f.(trash := Set(f.trash, n, e))
    case Installed(id, v) => f.(roots := f.roots[id := Safe(Set(f.roots[id].versions, v, e))])
  }

  lemma PutBeside(f: Files, p: Place, e: Option<Entry>, q: Place)
    requires Writable(f, p) && q != p
    ensures Get(Put(f, p, e), q) == Get(f, q)
  {
  }

  // ---- The catalog a state loads as ----

  /** The package a component's receipt and its version tree agree on. */
  function Loaded(policy: Policy, f: Files, id: Id): Option<Report> {
    if id in f.receipts && f.receipts[id].Readable? && f.receipts[id].report.id == id && id !in policy.builtins then
      var r := f.receipts[id].report;
      match Get(f, Installed(id, r.version))
      case Some(Directory(tree)) => if policy.inspect(tree) == Some(r) then Some(r) else None
      case _ => None
    else
      None
  }

  type Catalog = map<Id, Report>

  ghost function CatalogOf(policy: Policy, f: Files): Catalog {
    map id | id in f.receipts && Loaded(policy, f, id).Some? :: Loaded(policy, f, id).value
  }

  /** A package is in the catalog exactly when its own receipt is there, reads back under its
      own name, is not built in, and a tree that satisfies it lies at its version in a root
      that is safe. */
  lemma CatalogMeans(policy: Policy, f: Files, id: Id, r: Report)
    ensures (id in CatalogOf(policy, f) && CatalogOf(policy, f)[id] == r) <==>
        (&& id !in policy.builtins && id in f.receipts && f.receipts[id] == Readable(r) && r.id == id
         && id in f.roots && f.roots[id].Safe? && r.version in f.roots[id].versions
         && exists tree :: f.roots[id].versions[r.version] == Directory(tree) && policy.inspect(tree) == Some(r))
  {
    if id in f.roots && f.roots[id].Safe? && r.version in f.roots[id].versions {
      var here := f.roots[id].versions[r.version];
      assert here.Directory? ==> here == Directory(here.tree);
    }
  }

  lemma SameCatalog(policy: Policy, f: Files, g: Files)
    requires forall id :: Loaded(policy, f, id) == Loaded(policy, g, id)
    ensures CatalogOf(policy, f) == CatalogOf(policy, g)
  {
    var c, d := CatalogOf(policy, f), CatalogOf(policy, g);
    forall id
      ensures id in c <==> id in d
      ensures id in c ==> c[id] == d[id]
    {
      assert Loaded(policy, f, id) == Loaded(policy, g, id);
    }
  }

  /** Only the entry at version `v` of `id` (and staging and trash) may differ. */
  ghost predicate SameButAt(f: Files, g: Files, id: Id, v: Version) {
    && f.receipts == g.receipts
    && forall k, w | k != id || w != v :: Get(f, Installed(k, w)) == Get(g, Installed(k, w))
  }

  predicate Names(f: Files, id: Id, v: Version) {
    id in f.receipts && f.receipts[id].Readable? && f.receipts[id].report.version == v
  }

  /** A version directory that no receipt names is invisible. */
  lemma UnnamedIsInvisible(policy: Policy, f: Files, g: Files, id: Id, v: Version)
    requires SameButAt(f, g, id, v) && !Names(f, id, v)
    ensures CatalogOf(policy, f) == CatalogOf(policy, g)
  {
    forall k
      ensures Loaded(policy, f, k) == Loaded(policy, g, k)
    {
      if k in f.receipts && f.receipts[k].Readable? {
        var w := f.receipts[k].report.version;
        assert k != id || w != v;
        assert Get(f, Installed(k, w)) == Get(g, Installed(k, w));
      }
    }
    SameCatalog(policy, f, g);
  }

  /** While a component is not loaded, what happens at one of its versions can make it appear
      only as the very report its receipt already holds. */
  lemma MayAppear(policy: Policy, f: Files, g: Files, id: Id, v: Version)
    requires SameButAt(f, g, id, v) && Loaded(policy, f, id).None?
    ensures CatalogOf(policy, g) == (match Loaded(policy, g, id)
                                     case None => CatalogOf(policy, f)
                                     case Some(r) => CatalogOf(policy, f)[id := r])
  {
    var c, d := CatalogOf(policy, f), CatalogOf(policy, g);
    forall k | k != id
      ensures Loaded(policy, f, k) == Loaded(policy, g, k)
    {
      if k in f.receipts && f.receipts[k].Readable? {
        assert Get(f, Installed(k, f.receipts[k].report.version)) == Get(g, Installed(k, f.receipts[k].report.version));
      }
    }
    forall k | k != id
      ensures k in c <==> k in d
      ensures k in c ==> c[k] == d[k]
    {
      assert Loaded(policy, f, k) == Loaded(policy, g, k);
    }
  }

  /** Staging and trash are never loaded. */
  lemma TrashIsInvisible(policy: Policy, f: Files, g: Files)
    requires f.receipts == g.receipts
    requires forall k, w :: Get(f, Installed(k, w)) == Get(g, Installed(k, w))
    ensures CatalogOf(policy, f) == CatalogOf(policy, g)
  {
    forall id
      ensures Loaded(policy, f, id) == Loaded(policy, g, id)
    {
    }
    SameCatalog(policy, f, g);
  }

  /** Installing may go ahead: what the receipt of this component says now is either about
      another version, or about the very same package whose files are damaged or gone. */
  ghost predicate Clear(policy: Policy, f: Files, report: Report) {
    && report.id !in policy.builtins
    && (Names(f, report.id, report.version) ==>
          && Loaded(policy, f, report.id).None?
          && (f.receipts[report.id].report.id == report.id ==> f.receipts[report.id].report.digest == report.digest))
  }

  /** Until the receipt is written, nothing that happens at the new version's directory can
      make the store load as anything but the catalog before or the catalog after. */
  lemma BeforeOrAfter(policy: Policy, f: Files, g: Files, report: Report, full: Tree)
    requires CollisionFree(policy) && policy.inspect(full) == Some(report)
    requires Clear(policy, f, report) && SameButAt(f, g, report.id, report.version)
    ensures CatalogOf(policy, g) in {CatalogOf(policy, f), CatalogOf(policy, f)[report.id := report]}
  {
    if Names(f, report.id, report.version) {
      MayAppear(policy, f, g, report.id, report.version);
      match Get(g, Installed(report.id, report.version)) {
        case Some(Directory(tree)) =>
          if policy.inspect(tree).Some? && policy.inspect(tree).value.digest == report.digest {
            assert tree == full;
          }
        case _ =>
      }
    } else {
      UnnamedIsInvisible(policy, f, g, report.id, report.version);
    }
  }

  /** The version directory of `report` has exactly its content. */
  ghost predicate Holds(policy: Policy, f: Files, report: Report) {
    var here := Get(f, Installed(report.id, report.version));
    here.Some? && here.value.Directory? && policy.inspect(here.value.tree) == Some(report)
  }

  /** Writing the receipt is the commit point. */
  lemma ReceiptCommits(policy: Policy, f: Files, g: Files, report: Report)
    requires report.id !in policy.builtins
    requires SameButAt(f, g, report.id, report.version) && Holds(policy, g, report)
    ensures CatalogOf(policy, g.(receipts := g.receipts[report.id := Readable(report)]))
         == CatalogOf(policy, f)[report.id := report]
  {
    var h := g.(receipts := g.receipts[report.id := Readable(report)]);
    var c, d := CatalogOf(policy, f), CatalogOf(policy, h);
    assert Get(h, Installed(report.id, report.version)) == Get(g, Installed(report.id, report.version));
    forall k | k != report.id
      ensures k in c <==> k in d
      ensures k in c ==> c[k] == d[k]
    {
      if k in f.receipts && f.receipts[k].Readable? {
        var w := f.receipts[k].report.version;
        assert Get(f, Installed(k, w)) == Get(g, Installed(k, w)) == Get(h, Installed(k, w));
      }
      assert Loaded(policy, f, k) == Loaded(policy, h, k);
    }
  }

  /** Retiring the receipt removes exactly its component. */
  lemma ReceiptRetires(policy: Policy, f: Files, g: Files, id: Id)
    requires g.receipts == f.receipts - {id}
    requires forall k, w | k != id :: Get(f, Installed(k, w)) == Get(g, Installed(k, w))
    ensures CatalogOf(policy, g) == CatalogOf(policy, f) - {id}
  {
    var c, d := CatalogOf(policy, f), CatalogOf(policy, g);
    forall k | k != id
      ensures k in c <==> k in d
      ensures k in c ==> c[k] == d[k]
    {
      if k in f.receipts && f.receipts[k].Readable? {
        var w := f.receipts[k].report.version;
        assert Get(f, Installed(k, w)) == Get(g, Installed(k, w));
      }
      assert Loaded(policy, f, k) == Loaded(policy, g, k);
    }
  }

  // ---- Sizes ----

  ghost function TotalSize(c: Catalog): nat {
    if c == map[] then 0 else
      var id :| id in c;
      c[id].size + TotalSize(c - {id})
  }

  lemma {:induction false} TotalSizeOf(c: Catalog, id: Id)
    requires id in c
    ensures TotalSize(c) == c[id].size + TotalSize(c - {id})
    decreases |c|
  {
    var pick :| pick in c && TotalSize(c) == c[pick].size + TotalSize(c - {pick});
    if pick != id {
      TotalSizeOf(c - {pick}, id);
      TotalSizeOf(c - {id}, pick);
      assert c - {pick} - {id} == c - {id} - {pick};
    }
  }

  lemma {:induction false} SmallerIsLighter(small: Catalog, large: Catalog)
    requires small.Items <= large.Items
    ensures TotalSize(small) <= TotalSize(large)
    ensures TotalSize(small) == TotalSize(large) && (forall id <- large :: large[id].size > 0) ==> small == large
    decreases |small|
  {
    forall id | id in small
      ensures id in large && small[id] == large[id]
    {
      assert (id, small[id]) in small.Items;
    }
    if small == map[] {
      if large != map[] {
        var id :| id in large;
        TotalSizeOf(large, id);
      }
    } else {
      var id :| id in small;
      TotalSizeOf(small, id);
      TotalSizeOf(large, id);
      var s, l := small - {id}, large - {id};
      forall item | item in s.Items
        ensures item in l.Items
      {
        assert item.0 in l && l[item.0] == item.1;
      }
      SmallerIsLighter(s, l);
      if s == l {
        assert small == s[id := small[id]] && large == l[id := large[id]];
      }
    }
  }

  ghost predicate Fits(c: Catalog) {
    TotalSize(c) <= MAXIMUM_CATALOG_BYTES
  }

  ghost function RegularReceipts(f: Files): set<Id> {
    set id | id in f.receipts && !f.receipts[id].Unsafe?
  }

  lemma ReplacedSize(c: Catalog, id: Id, r: Report)
    ensures TotalSize(c[id := r]) == TotalSize(c - {id}) + r.size
  {
    TotalSizeOf(c[id := r], id);
    assert c[id := r] - {id} == c - {id};
  }

  /** Load reports every package this state holds: nothing is refused or left out. */
  ghost predicate LoadsFully(policy: Policy, f: Files) {
    |RegularReceipts(f)| <= MAXIMUM_RECEIPTS && Fits(CatalogOf(policy, f))
  }

  /** What a caller of the store can see is the same. */
  ghost predicate SameVisible(f: Files, g: Files) {
    f.receipts == g.receipts && forall k, w :: Get(f, Installed(k, w)) == Get(g, Installed(k, w))
  }

  /** Staging and trash hold nothing new, but for what was retired. */
  ghost predicate Tidy(f: Files, g: Files, retired: Option<string>) {
    forall p: Place | !p.Installed? && (retired.Some? ==> p != Trashed(retired.value)) ::
      Get(g, p) == None || Get(g, p) == Get(f, p)
  }

  /** Nothing more is retired than before. */
  ghost predicate NothingRetired(f: Files, g: Files) {
    g.trashedRoots.Items <= f.trashedRoots.Items && g.trashedReceipts.Items <= f.trashedReceipts.Items
  }

  // ---- The file system, one step at a time ----

  class FileSystem {
    var files: Files
    var trace: seq<Files>
    var refusals: nat
    /** The private directories of the store were found or made. */
    ghost var prepared: bool

    ghost predicate Valid()
      reads this
    {
      |trace| > 0 && trace[|trace| - 1] == files
    }

    constructor (f: Files)
      ensures Valid() && files == f && trace == [f] && refusals == 0
    {
      files, trace, refusals := f, [f], 0;
      prepared := false;
    }

    method EnsureDirectories() returns (ok: bool)
      modifies this`refusals, this`prepared
      ensures ok ==> prepared && refusals == old(refusals)
      ensures !ok ==> refusals == old(refusals) + 1
    {
      ok := *;
      if ok {
        prepared := true;
      } else {
        refusals := refusals + 1;
      }
    }

    /** One atomic rename, unlink, directory creation or committed save: it happens or not. */
    method Step(next: Files) returns (ok: bool)
      requires Valid()
      modifies this
      ensures Valid()
      ensures ok ==> files == next && trace == old(trace) + [next] && refusals == old(refusals)
      ensures !ok ==> files == old(files) && trace == old(trace) && refusals == old(refusals) + 1
    {
      ok := *;
      if ok {
        files, trace := next, trace + [next];
      } else {
        refusals := refusals + 1;
      }
    }
  }

  /** Every state added since `before` loads as one of the `allowed` catalogs. */
  ghost predicate Always(policy: Policy, before: seq<Files>, after: seq<Files>, allowed: set<Catalog>) {
    && before <= after
    && forall i | |before| <= i < |after| :: CatalogOf(policy, after[i]) in allowed
  }

  ghost predicate Shrunk(whole: Option<Entry>, part: Option<Entry>) {
    || part.None?
    || part == whole
    || (whole.Some? && whole.value.Directory? && part.value.Directory?
        && part.value.tree.Items < whole.value.tree.Items)
  }

  /** Only `p` differs, and there part of what was there is left. */
  ghost predicate Removing(f: Files, g: Files, p: Place) {
    && f.receipts == g.receipts && SameRetired(f, g)
    && (forall q | q != p :: Get(f, q) == Get(g, q))
    && Shrunk(Get(f, p), Get(g, p))
    && (!p.Installed? ==> g.roots == f.roots)
    && forall q :: Writable(f, q) ==> Writable(g, q)
  }

  lemma RemovingMore(f: Files, g: Files, p: Place, path: string)
    requires Removing(f, g, p) && Writable(g, p)
    requires Get(g, p).Some? && Get(g, p).value.Directory? && path in Get(g, p).value.tree
    ensures Removing(f, Put(g, p, Some(Directory(Get(g, p).value.tree - {path}))), p)
  {
    var tree := Get(g, p).value.tree;
    var rest := tree - {path};
    assert (path, tree[path]) in tree.Items && (path, tree[path]) !in rest.Items;
    assert rest.Items < tree.Items;
  }

  ghost predicate RemovingRun(f: Files, before: seq<Files>, after: seq<Files>, p: Place) {
    && before <= after
    && forall i | |before| <= i < |after| :: Removing(f, after[i], p)
  }

  lemma RunExtends(f: Files, before: seq<Files>, after: seq<Files>, g: Files, p: Place)
    requires RemovingRun(f, before, after, p) && Removing(f, g, p)
    ensures RemovingRun(f, before, after + [g], p)
  {
  }

  lemma RemovingAll(f: Files, g: Files, p: Place)
    requires Removing(f, g, p) && Writable(g, p)
    ensures Removing(f, Put(g, p, None), p)
  {
  }

  /** All states added since `before` differ from `f` only at one version of one component. */
  ghost predicate Reached(f: Files, before: seq<Files>, after: seq<Files>, id: Id, v: Version) {
    && before <= after
    && forall i | |before| <= i < |after| :: SameButAt(f, after[i], id, v)
  }

  /** States that load like `f` and hold its receipts. */
  ghost predicate Steady(policy: Policy, f: Files, before: seq<Files>, after: seq<Files>) {
    && before <= after
    && forall i | |before| <= i < |after| ::
        after[i].receipts == f.receipts && CatalogOf(policy, after[i]) == CatalogOf(policy, f)
  }

  /** Nothing is left of a component that its receipt does not reach. */
  ghost predicate Swept(policy: Policy, f: Files, id: Id) {
    id !in policy.builtins ==>
      && (id !in f.receipts ==> forall w :: Get(f, Installed(id, w)) == None)
      && (Committed(f, id) ==> forall w | !Names(f, id, w) :: Get(f, Installed(id, w)) == None)
  }

  /** The component has a readable receipt of its own, and the version it names is there. */
  ghost predicate Committed(f: Files, id: Id) {
    id in f.receipts && f.receipts[id].Readable? && f.receipts[id].report.id == id &&
    match Get(f, Installed(id, f.receipts[id].report.version))
    case Some(Directory(_)) => true
    case _ => false
  }

  /** A sweep does not touch it: built in, or with a receipt that is not to be relied on. */
  ghost predicate LeftAlone(policy: Policy, f: Files, id: Id) {
    id in policy.builtins || (id in f.receipts && !Committed(f, id))
  }

  ghost predicate SameVersions(f: Files, g: Files, id: Id) {
    forall w :: Get(f, Installed(id, w)) == Get(g, Installed(id, w))
  }

  lemma NothingToSweep(policy: Policy, f: Files, id: Id)
    requires id !in f.roots
    ensures Swept(policy, f, id)
  {
  }

  /** What is known once the checks let an installation go ahead. */
  ghost predicate MayInstall(policy: Policy, f: Files, report: Report) {
    && Clear(policy, f, report)
    && (LoadsFully(policy, f) ==>
          && Fits(CatalogOf(policy, f)[report.id := report])
          && |RegularReceipts(f) + {report.id}| <= MAXIMUM_RECEIPTS)
  }

  ghost predicate AllLoadFully(policy: Policy, before: seq<Files>, after: seq<Files>) {
    forall i | |before| <= i < |after| :: LoadsFully(policy, after[i])
  }

  lemma PublishingIsSafe(policy: Policy, f: Files, before: seq<Files>, after: seq<Files>, report: Report, full: Tree)
    requires CollisionFree(policy) && policy.inspect(full) == Some(report)
    requires MayInstall(policy, f, report) && Reached(f, before, after, report.id, report.version)
    ensures Always(policy, before, after, {CatalogOf(policy, f), CatalogOf(policy, f)[report.id := report]})
    ensures LoadsFully(policy, f) ==> AllLoadFully(policy, before, after)
  {
    forall i | |before| <= i < |after|
      ensures CatalogOf(policy, after[i]) in {CatalogOf(policy, f), CatalogOf(policy, f)[report.id := report]}
      ensures LoadsFully(policy, f) ==> LoadsFully(policy, after[i])
    {
      BeforeOrAfter(policy, f, after[i], report, full);
    }
  }

  datatype StoreError =
    | TransactionFailed
    | ReservedComponentId
    | CatalogFull
    | SameVersionDifferentDigest
    | BuiltinRemovalForbidden
    | UnknownComponent
    | DigestMismatch
    | HasDependents

  datatype StoreResult = Success | Failure(error: StoreError)

  datatype Verdict = Rejected(error: StoreError) | AlreadyThere | Proceed

  datatype LoadResult = LoadResult(ok: bool, entries: Catalog, total: nat, receiptCount: nat)

  /** There is a place for the receipt: none of this version with another digest, none that
      is no regular file, and no 512th. */
  ghost predicate ReceiptAdmits(f: Files, report: Report) {
    && |RegularReceipts(f)| <= 511
    && (report.id !in f.receipts ==> |RegularReceipts(f)| < 511)
    && (report.id in f.receipts ==>
          match f.receipts[report.id]
          case Unsafe => false
          case Damaged => true
          case Readable(r) => r.id == report.id && r.version == report.version ==> r.digest == report.digest)
  }

  /** A place for the content: a safe root, and at the version nothing or a directory. */
  ghost predicate RootAdmits(f: Files, report: Report) {
    && (report.id in f.roots ==> f.roots[report.id].Safe?)
    && var here := Get(f, Installed(report.id, report.version));
    here.Some? ==> here.value.Directory?
  }

  class UserPackageStore {
    const policy: Policy
    const fs: FileSystem
    const leased: bool

    constructor (policy: Policy, fs: FileSystem)
      ensures this.policy == policy && this.fs == fs
    {
      this.policy, this.fs, leased := policy, fs, *;
    }

    ghost function Now(): Catalog
      reads this, fs
    {
      CatalogOf(policy, fs.files)
    }

    /** Receipts are considered one by one, in any order, under the catalog limit. Nothing is
        left out exactly when the whole catalog fits. */
    method Load() returns (r: LoadResult)
      ensures r.ok <==> leased && |RegularReceipts(fs.files)| <= 511
      ensures r.ok ==>
          && r.entries.Items <= Now().Items
          && r.total == TotalSize(r.entries) <= 0x2000_0000
          && (r.entries == Now() <==> TotalSize(Now()) <= 0x2000_0000)
          && (forall id | id in Now() && id !in r.entries :: r.total + Now()[id].size > 0x2000_0000)
          && r.receiptCount == |RegularReceipts(fs.files)|
    {
      var todo := set id | id in fs.files.receipts && !fs.files.receipts[id].Unsafe?;
      assert todo == RegularReceipts(fs.files);
      r := LoadResult(leased && |todo| <= MAXIMUM_RECEIPTS, map[], 0, |todo|);
      if !r.ok {
        return;
      }
      while todo != {}
        invariant r.ok && r.receiptCount == |RegularReceipts(fs.files)|
        invariant todo <= fs.files.receipts.Keys && r.entries.Keys !! todo
        invariant forall id | id in Now() && id !in todo && id !in r.entries ::
            !Fits(Now()) && r.total + Now()[id].size > MAXIMUM_CATALOG_BYTES
        invariant r.entries.Items <= Now().Items
        invariant r.total == TotalSize(r.entries) <= MAXIMUM_CATALOG_BYTES
      {
        var id :| id in todo;
        todo := todo - {id};
        var found := Loaded(policy, fs.files, id);
        if found.Some? {
          var next := r.entries[id := found.value];
          TotalSizeOf(next, id);
          assert next - {id} == r.entries;
          SubCatalog(r.entries, id, found.value, Now());
          SmallerIsLighter(next, Now());
          if r.total <= MAXIMUM_CATALOG_BYTES - found.value.size {
            r := r.(entries := next, total := r.total + found.value.size);
          }
        }
      }
      if Fits(Now()) {
        SameKeys(r.entries, Now());
      }
    }

    method RemoveEntry(p: Place) returns (ok: bool)
      requires fs.Valid()
      modifies fs
      ensures fs.Valid() && fs.refusals >= old(fs.refusals)
      ensures Writable(old(fs.files), p) ==> Writable(fs.files, p)
      ensures ok ==> Get(fs.files, p) == None && fs.refusals == old(fs.refusals)
      ensures !ok ==> fs.refusals > old(fs.refusals)
      ensures Removing(old(fs.files), fs.files, p)
      ensures RemovingRun(old(fs.files), old(fs.trace), fs.trace, p)
    {
      hide Removing, RemovingRun, Put;
      var before := fs.files;
      var entry := Get(fs.files, p);
      Untouched(before, old(fs.trace), p);
      if entry.None? {
        return true;
      }
      while entry.value.Directory? && entry.value.tree != map[]
        invariant fs.Valid() && entry.Some? && entry == Get(fs.files, p) && fs.refusals == old(fs.refusals)
        invariant Writable(fs.files, p)
        invariant Removing(before, fs.files, p)
        invariant RemovingRun(before, old(fs.trace), fs.trace, p)
        decreases if entry.value.Directory? then |entry.value.tree| else 0
      {
        var path :| path in entry.value.tree;
        RemovingMore(before, fs.files, p, path);
        RunExtends(before, old(fs.trace), fs.trace, Put(fs.files, p, Some(Directory(entry.value.tree - {path}))), p);
        entry := Some(Directory(entry.value.tree - {path}));
        var unlinked := fs.Step(Put(fs.files, p, entry));
        if !unlinked {
          return false;
        }
      }
      RemovingAll(before, fs.files, p);
      RunExtends(before, old(fs.trace), fs.trace, Put(fs.files, p, None), p);
      ok := fs.Step(Put(fs.files, p, None));
    }

    /** Remove something that lies in staging, in the trash, or at the one version at stake. */
    method Discard(p: Place, ghost f: Files, ghost id: Id, ghost v: Version) returns (ok: bool)
      requires fs.Valid() && SameButAt(f, fs.files, id, v)
      requires p.Installed? ==> p == Installed(id, v)
      modifies fs
      ensures fs.Valid() && fs.refusals >= old(fs.refusals)
      ensures SameButAt(f, fs.files, id, v) && Reached(f, old(fs.trace), fs.trace, id, v)
      ensures forall q | q != p :: Get(fs.files, q) == Get(old(fs.files), q)
      ensures ok <==> fs.refusals == old(fs.refusals)
      ensures ok ==> Get(fs.files, p) == None
      ensures forall q :: Writable(old(fs.files), q) ==> Writable(fs.files, q)
      ensures !p.Installed? ==> fs.files.roots == old(fs.files).roots
    {
      hide Get;
      ok := RemoveEntry(p);
    }

    method RemoveVersion(id: Id, v: Version) returns (ok: bool)
      requires fs.Valid() && !Names(fs.files, id, v)
      modifies fs
      ensures fs.Valid() && fs.refusals >= old(fs.refusals)
      ensures Steady(policy, old(fs.files), old(fs.trace), fs.trace) && Now() == old(Now())
      ensures fs.files.receipts == old(fs.files).receipts && SameRetired(old(fs.files), fs.files)
      ensures forall q | q != Installed(id, v) :: Get(fs.files, q) == Get(old(fs.files), q)
      ensures Writable(old(fs.files), Installed(id, v)) ==> Writable(fs.files, Installed(id, v))
      ensures ok <==> fs.refusals == old(fs.refusals)
      ensures ok ==> Get(fs.files, Installed(id, v)) == None
    {
      hide Get, Loaded, CatalogOf;
      var before, states := fs.files, |fs.trace|;
      ok := RemoveEntry(Installed(id, v));
      UnnamedIsInvisible(policy, before, fs.files, id, v);
      forall i | states <= i < |fs.trace|
        ensures fs.trace[i].receipts == before.receipts && CatalogOf(policy, fs.trace[i]) == CatalogOf(policy, before)
      {
        UnnamedIsInvisible(policy, before, fs.trace[i], id, v);
      }
    }

    /** The component's own receipt names this version with another digest. */
    ghost predicate OtherDigest(f: Files, report: Report) {
      && report.id in f.receipts && f.receipts[report.id].Readable?
      && f.receipts[report.id].report.id == report.id
      && f.receipts[report.id].report.version == report.version
      && f.receipts[report.id].report.digest != report.digest
    }

    /** Every check `install` makes before it touches the package directories. */
    method Examine(report: Report, ghost origin: Tree) returns (verdict: Verdict)
      requires fs.Valid() && CollisionFree(policy) && policy.inspect(origin) == Some(report)
      modifies fs`refusals, fs`prepared
      ensures fs.refusals >= old(fs.refusals)
      ensures verdict.Proceed? ==> MayInstall(policy, fs.files, report)
      ensures verdict.AlreadyThere? ==>
          report.id in Now() && Now()[report.id] == report && report.id !in policy.builtins
      ensures !verdict.Rejected? ==> fs.prepared
      ensures verdict == Rejected(ReservedComponentId) <==> report.id in policy.builtins
      ensures (fs.refusals == old(fs.refusals) && leased && report.id !in policy.builtins
          && LoadsFully(policy, fs.files) && Fits(Now()[report.id := report]) && ReceiptAdmits(fs.files, report))
          ==> !verdict.Rejected?
      ensures (fs.refusals == old(fs.refusals) && leased && report.id !in policy.builtins
          && LoadsFully(policy, fs.files)) ==>
          && (verdict == Rejected(TransactionFailed) <==>
                report.id in fs.files.receipts && fs.files.receipts[report.id].Unsafe?)
          && (verdict == Rejected(SameVersionDifferentDigest) <==> OtherDigest(fs.files, report))
          && (verdict == AlreadyThere <==> report.id in Now() && Now()[report.id].digest == report.digest)
          && (verdict == Rejected(CatalogFull) <==>
                || (report.id !in fs.files.receipts && |RegularReceipts(fs.files)| == 511)
                || ((report.id in fs.files.receipts ==> !fs.files.receipts[report.id].Unsafe?)
                    && !OtherDigest(fs.files, report) && TotalSize(Now()[report.id := report]) > 0x2000_0000))
          && !(verdict.Rejected? && verdict.error in
                 {BuiltinRemovalForbidden, UnknownComponent, DigestMismatch, HasDependents})
    {
      hide Loaded, CatalogOf, TotalSize;
      if report.id in policy.builtins {
        return Verdict.Rejected(ReservedComponentId);
      }
      var load := Load();
      if !load.ok {
        return Verdict.Rejected(TransactionFailed);
      }
      if report.id in Now() {
        Present(policy, fs.files, report.id);
      }
      var already, hasReceipt := report.id in load.entries, report.id in fs.files.receipts;
      if !already && !hasReceipt && load.receiptCount >= MAXIMUM_RECEIPTS {
        return Verdict.Rejected(CatalogFull);
      }
      var directories := fs.EnsureDirectories();
      if !directories {
        return Verdict.Rejected(TransactionFailed);
      }
      var existing: Option<Report> := None;
      if hasReceipt {
        var receipt := fs.files.receipts[report.id];
        if receipt.Unsafe? {
          return Verdict.Rejected(TransactionFailed);
        }
        if receipt.Readable? && receipt.report.id == report.id {
          existing := Some(receipt.report);
        }
      }
      if existing.Some? && existing.value.version == report.version && existing.value.digest != report.digest {
        return Verdict.Rejected(SameVersionDifferentDigest);
      }
      if already {
        LoadedEntry(policy, fs.files, load.entries, report.id);
        if existing.value.digest == report.digest {
          OneReportPerDigest(policy, fs.files, report, origin);
          assert Now()[report.id := report] == Now();
          return AlreadyThere;
        }
      }
      var existingBytes := if already && existing.Some? then existing.value.size else 0;
      RoomIsExact(Now(), load.entries, report);
      if load.total < existingBytes || load.total - existingBytes > MAXIMUM_CATALOG_BYTES - report.size {
        return Verdict.Rejected(CatalogFull);
      }
      RoomMeansClear(policy, fs.files, load.entries, report, origin);
      verdict := Proceed;
    }

    /** Put the inspected content into a staging directory of its own. */
    method Materialize(report: Report, bundle: Tree, ghost f: Files) returns (name: Option<string>)
      requires fs.Valid() && SameButAt(f, fs.files, report.id, report.version)
      modifies fs
      ensures fs.Valid() && fs.refusals >= old(fs.refusals)
      ensures SameButAt(f, fs.files, report.id, report.version)
      ensures Reached(f, old(fs.trace), fs.trace, report.id, report.version)
      ensures name.Some? ==>
          policy.inspect(bundle) == Some(report) && Get(fs.files, Staged(name.value)) == Some(Directory(bundle))
      ensures fs.refusals == old(fs.refusals) && policy.inspect(bundle) == Some(report) ==> name.Some?
      ensures fs.files.roots == old(fs.files).roots
      ensures name.None? && policy.inspect(bundle) == Some(report) ==> fs.refusals > old(fs.refusals)
      ensures name.Some? ==> fs.refusals == old(fs.refusals)
      ensures fs.refusals == old(fs.refusals) ==>
          forall p: Place | !p.Installed? && (name.Some? ==> p != Staged(name.value)) ::
            Get(fs.files, p) == None || Get(fs.files, p) == Get(old(fs.files), p)
    {
      hide Get, Loaded, CatalogOf;
      name := None;
      var fresh': string := *;
      var made := fs.Step(Put(fs.files, Staged(fresh'), Some(Directory(map[]))));
      if !made {
        return;
      }
      var written := false;
      if policy.inspect(bundle) == Some(report) {
        written := fs.Step(Put(fs.files, Staged(fresh'), Some(Directory(bundle))));
      }
      if written {
        name := Some(fresh');
      } else {
        var _ := DiscardStaged(fresh', f, report.id, report.version);
      }
    }

    method DiscardStaged(name: string, ghost f: Files, ghost id: Id, ghost v: Version) returns (ok: bool)
      requires fs.Valid() && SameButAt(f, fs.files, id, v)
      modifies fs
      ensures fs.Valid() && fs.refusals >= old(fs.refusals)
      ensures SameButAt(f, fs.files, id, v) && Reached(f, old(fs.trace), fs.trace, id, v)
      ensures forall q | q != Staged(name) :: Get(fs.files, q) == Get(old(fs.files), q)
      ensures fs.files.roots == old(fs.files).roots
      ensures fs.refusals == old(fs.refusals) ==> Get(fs.files, Staged(name)) == None
    {
      ok := Discard(Staged(name), f, id, v);
    }

    /** What undoing a publication finds: the content retired for it, or nothing in its place. */
    ghost predicate RestoresTo(here: Option<Entry>, f: Files, report: Report, published: bool,
                               retired: Option<string>)
    {
      if !published then retired.None? && Get(f, Installed(report.id, report.version)) == here
      else if retired.Some? then here.Some? && Get(f, Trashed(retired.value)) == here
      else here.None?
    }

    /** Bring inspected content to its version directory: keep what already validates there,
        retire what does not. */
    method Publish(report: Report, full: Tree, name: string, ghost f: Files)
      returns (ok: bool, published: bool, retired: Option<string>)
      requires fs.Valid() && SameButAt(f, fs.files, report.id, report.version)
      requires policy.inspect(full) == Some(report) && Get(fs.files, Staged(name)) == Some(Directory(full))
      requires Writable(fs.files, Installed(report.id, report.version))
      modifies fs
      ensures fs.Valid() && fs.refusals >= old(fs.refusals)
      ensures SameButAt(f, fs.files, report.id, report.version)
      ensures Reached(f, old(fs.trace), fs.trace, report.id, report.version)
      ensures Writable(fs.files, Installed(report.id, report.version))
      ensures ok ==> Holds(policy, fs.files, report)
      ensures fs.refusals == old(fs.refusals) && RootAdmits(old(fs.files), report) ==> ok
      ensures !ok && fs.refusals <= old(fs.refusals) + 1 ==>
          Get(fs.files, Installed(report.id, report.version))
            == old(Get(fs.files, Installed(report.id, report.version)))
      ensures fs.refusals == old(fs.refusals) ==>
          Get(fs.files, Staged(name)) == None && Tidy(old(fs.files), fs.files, retired)
      ensures ok ==>
          RestoresTo(old(Get(fs.files, Installed(report.id, report.version))), fs.files, report, published, retired)
    {
      hide Get, Loaded, CatalogOf, Put;
      var here := Get(fs.files, Installed(report.id, report.version));
      ok, published, retired := true, false, None;
      if here.Some? && here.value.Irregular? {
        ok := false;
      } else if here.None? || policy.inspect(here.value.tree) != Some(report) {
        ok, retired := Exchange(report, full, name, here.Some?, f);
        published := ok;
      }
      ghost var placed := fs.files;
      var _ := DiscardStaged(name, f, report.id, report.version);
      if fs.refusals == old(fs.refusals) {
        TidyWithout(old(fs.files), placed, fs.files, name, retired);
      }
    }

    /** Move the content there is to the trash and the staged one to its place. */
    method Exchange(report: Report, full: Tree, name: string, occupied: bool, ghost f: Files)
      returns (ok: bool, retired: Option<string>)
      requires fs.Valid() && SameButAt(f, fs.files, report.id, report.version)
      requires policy.inspect(full) == Some(report) && Get(fs.files, Staged(name)) == Some(Directory(full))
      requires Writable(fs.files, Installed(report.id, report.version))
      requires occupied == Get(fs.files, Installed(report.id, report.version)).Some?
      modifies fs
      ensures fs.Valid() && fs.refusals >= old(fs.refusals)
      ensures SameButAt(f, fs.files, report.id, report.version)
      ensures Reached(f, old(fs.trace), fs.trace, report.id, report.version)
      ensures Writable(fs.files, Installed(report.id, report.version))
      ensures ok <==> fs.refusals == old(fs.refusals)
      ensures ok ==>
          && Get(fs.files, Installed(report.id, report.version)) == Some(Directory(full))
          && retired.Some? == occupied
          && (occupied ==>
                Get(fs.files, Trashed(retired.value)) == old(Get(fs.files, Installed(report.id, report.version))))
          && forall q | q != Staged(name) && q != Installed(report.id, report.version)
                && (retired.Some? ==> q != Trashed(retired.value)) :: Get(fs.files, q) == Get(old(fs.files), q)
      ensures !ok && fs.refusals == old(fs.refusals) + 1 ==>
          Get(fs.files, Installed(report.id, report.version))
            == old(Get(fs.files, Installed(report.id, report.version)))
    {
      hide Get, Loaded, CatalogOf, Put;
      var dest := Installed(report.id, report.version);
      ok, retired := true, None;
      if occupied {
        retired := Retire(report, f);
        ok := retired.Some?;
      }
      if ok {
        ok := fs.Step(Put(Put(fs.files, Staged(name), Some(Directory(map[]))), dest, Some(Directory(full))));
        if !ok && retired.Some? {
          RestoreRetired(report, retired.value, f);
        }
      }
    }

    method Retire(report: Report, ghost f: Files) returns (name: Option<string>)
      requires fs.Valid() && SameButAt(f, fs.files, report.id, report.version)
      requires Writable(fs.files, Installed(report.id, report.version))
      modifies fs
      ensures fs.Valid() && fs.refusals >= old(fs.refusals)
      ensures SameButAt(f, fs.files, report.id, report.version)
      ensures Reached(f, old(fs.trace), fs.trace, report.id, report.version)
      ensures Writable(fs.files, Installed(report.id, report.version))
      ensures forall n :: Get(fs.files, Staged(n)) == Get(old(fs.files), Staged(n))
      ensures name.None? ==> fs.refusals == old(fs.refusals) + 1 && fs.files == old(fs.files)
      ensures name.Some? ==>
          forall q | q != Trashed(name.value) && q != Installed(report.id, report.version) ::
            Get(fs.files, q) == Get(old(fs.files), q)
      ensures name.Some? ==>
          && fs.refusals == old(fs.refusals) && Get(fs.files, Installed(report.id, report.version)) == None
          && Get(fs.files, Trashed(name.value)) == old(Get(fs.files, Installed(report.id, report.version)))
    {
      hide Get, Put;
      var dest := Installed(report.id, report.version);
      var unique: string := *;
      ghost var kept := Put(fs.files, Trashed(unique), Get(fs.files, dest));
      PutBeside(kept, dest, None, Trashed(unique));
      var moved := fs.Step(Put(Put(fs.files, Trashed(unique), Get(fs.files, dest)), dest, None));
      name := if moved then Some(unique) else None;
    }

    method RestoreRetired(report: Report, name: string, ghost f: Files)
      requires fs.Valid() && SameButAt(f, fs.files, report.id, report.version)
      requires Writable(fs.files, Installed(report.id, report.version))
      modifies fs
      ensures fs.Valid() && fs.refusals >= old(fs.refusals)
      ensures SameButAt(f, fs.files, report.id, report.version)
      ensures Reached(f, old(fs.trace), fs.trace, report.id, report.version)
      ensures Writable(fs.files, Installed(report.id, report.version))
      ensures fs.refusals == old(fs.refusals) ==>
          Get(fs.files, Installed(report.id, report.version)) ==
            if old(Get(fs.files, Installed(report.id, report.version))).None? then old(Get(fs.files, Trashed(name)))
            else old(Get(fs.files, Installed(report.id, report.version)))
    {
      hide Get, Put;
      var content := Get(fs.files, Trashed(name));
      if content.Some? && Get(fs.files, Installed(report.id, report.version)).None? {
        var _ := fs.Step(Put(Put(fs.files, Installed(report.id, report.version), content), Trashed(name), None));
      }
    }

    /** The component's own directory, created if it is not there. */
    method EnsureRoot(id: Id, ghost f: Files, ghost v: Version) returns (ok: bool)
      requires fs.Valid() && SameButAt(f, fs.files, id, v)
      modifies fs
      ensures fs.Valid() && fs.refusals >= old(fs.refusals)
      ensures SameButAt(f, fs.files, id, v) && Reached(f, old(fs.trace), fs.trace, id, v)
      ensures forall q :: Get(fs.files, q) == Get(old(fs.files), q)
      ensures ok ==> Writable(fs.files, Installed(id, v))
      ensures fs.refusals == old(fs.refusals) && (id in old(fs.files).roots ==> old(fs.files).roots[id].Safe?) ==> ok
    {
      if id in fs.files.roots {
        return fs.files.roots[id].Safe?;
      }
      ok := fs.Step(fs.files.(roots := fs.files.roots[id := Safe(map[])]));
    }

    /** Staging, publishing and everything that is undone when they fail: no receipt changes. */
    method Stage(report: Report, bundle: Option<Tree>, ghost f: Files)
      returns (ok: bool, published: bool, retired: Option<string>)
      requires fs.Valid() && SameButAt(f, fs.files, report.id, report.version)
      modifies fs
      ensures fs.Valid() && fs.refusals >= old(fs.refusals)
      ensures SameButAt(f, fs.files, report.id, report.version)
      ensures Reached(f, old(fs.trace), fs.trace, report.id, report.version)
      ensures ok ==>
          && Writable(fs.files, Installed(report.id, report.version))
          && Holds(policy, fs.files, report)
      ensures (fs.refusals == old(fs.refusals) && bundle.Some? && policy.inspect(bundle.value) == Some(report)
          && RootAdmits(old(fs.files), report)) ==> ok
      ensures !ok && fs.refusals <= old(fs.refusals) + 1 ==>
          Get(fs.files, Installed(report.id, report.version))
            == old(Get(fs.files, Installed(report.id, report.version)))
      ensures fs.refusals == old(fs.refusals) ==> Tidy(old(fs.files), fs.files, retired)
      ensures ok ==>
          RestoresTo(old(Get(fs.files, Installed(report.id, report.version))), fs.files, report, published, retired)
    {
      hide Put, Loaded, CatalogOf;
      ok, published, retired := false, false, None;
      if bundle.None? {
        return;
      }
      var name := Materialize(report, bundle.value, f);
      if name.None? {
        return;
      }
      var rooted := EnsureRoot(report.id, f, report.version);
      if rooted {
        ok, published, retired := Publish(report, bundle.value, name.value, f);
      } else {
        var _ := DiscardStaged(name.value, f, report.id, report.version);
      }
    }

    /** Write the receipt, or undo the publication. */
    method Commit(report: Report, published: bool, retired: Option<string>, ghost f: Files) returns (ok: bool)
      requires fs.Valid() && SameButAt(f, fs.files, report.id, report.version)
      requires report.id !in policy.builtins && Writable(fs.files, Installed(report.id, report.version))
      requires Holds(policy, fs.files, report)
      modifies fs
      ensures fs.Valid() && fs.refusals >= old(fs.refusals)
      ensures !ok ==> fs.refusals > old(fs.refusals) && Reached(f, old(fs.trace), fs.trace, report.id, report.version)
      ensures ok ==>
          && fs.refusals == old(fs.refusals)
          && fs.files == old(fs.files).(receipts := old(fs.files).receipts[report.id := Readable(report)])
          && fs.trace == old(fs.trace) + [fs.files]
          && fs.files.receipts == f.receipts[report.id := Readable(report)]
          && Now() == CatalogOf(policy, f)[report.id := report]
      ensures !ok ==> SameButAt(f, fs.files, report.id, report.version)
      ensures !ok && fs.refusals == old(fs.refusals) + 1 ==>
          Get(fs.files, Installed(report.id, report.version)) ==
            if retired.Some? && (published || old(Get(fs.files, Installed(report.id, report.version))).None?)
               && old(Get(fs.files, Trashed(retired.value))).Some? then old(Get(fs.files, Trashed(retired.value)))
            else if published then None
            else old(Get(fs.files, Installed(report.id, report.version)))
    {
      hide Put, Loaded, CatalogOf;
      ReceiptCommits(policy, f, fs.files, report);
      ok := fs.Step(fs.files.(receipts := fs.files.receipts[report.id := Readable(report)]));
      if !ok {
        if published {
          var _ := Discard(Installed(report.id, report.version), f, report.id, report.version);
        }
        if retired.Some? {
          RestoreRetired(report, retired.value, f);
        }
      }
    }

    /** What is cleaned up behind a committed receipt never shows. */
    method CleanUp(report: Report, retired: Option<string>)
      requires fs.Valid() && report.id in fs.files.receipts && fs.files.receipts[report.id] == Readable(report)
      modifies fs
      ensures fs.Valid() && fs.refusals >= old(fs.refusals)
      ensures Steady(policy, old(fs.files), old(fs.trace), fs.trace) && Now() == old(Now())
      ensures fs.files.receipts == old(fs.files).receipts
      ensures fs.refusals == old(fs.refusals) ==> forall p: Place | !p.Installed? ::
          if retired.Some? && p == Trashed(retired.value) then Get(fs.files, p) == None
          else Get(fs.files, p) == Get(old(fs.files), p)
      ensures (fs.refusals == old(fs.refusals) && report.id in Now() && Now()[report.id] == report) ==>
          report.id in fs.files.roots && fs.files.roots[report.id].Safe?
          && fs.files.roots[report.id].versions.Keys == {report.version}
    {
      hide CatalogOf, Get;
      if retired.Some? {
        var _ := EmptyTrash(Trashed(retired.value));
      }
      if report.id in Now() {
        Present(policy, fs.files, report.id);
      }
      var _ := Prune(report.id, report.version);
    }

    method EmptyTrash(p: Place) returns (ok: bool)
      requires fs.Valid() && !p.Installed?
      modifies fs
      ensures fs.Valid() && fs.refusals >= old(fs.refusals)
      ensures Steady(policy, old(fs.files), old(fs.trace), fs.trace) && Now() == old(Now())
      ensures fs.files.receipts == old(fs.files).receipts && fs.files.roots == old(fs.files).roots
      ensures forall q | q != p :: Get(fs.files, q) == Get(old(fs.files), q)
      ensures ok ==> Get(fs.files, p) == None
      ensures ok <==> fs.refusals == old(fs.refusals)
    {
      hide Get, Loaded, CatalogOf;
      var before, states := fs.files, |fs.trace|;
      ok := RemoveEntry(p);
      TrashIsInvisible(policy, before, fs.files);
      forall i | states <= i < |fs.trace|
        ensures fs.trace[i].receipts == before.receipts && CatalogOf(policy, fs.trace[i]) == CatalogOf(policy, before)
      {
        TrashIsInvisible(policy, before, fs.trace[i]);
      }
    }

    /** A crash between any two steps leaves a store that loads as the catalog before or as
        the catalog after; other components never change. */
    method Install(report: Report, bundle: Option<Tree>, ghost origin: Tree) returns (r: StoreResult)
      requires fs.Valid() && CollisionFree(policy) && policy.inspect(origin) == Some(report)
      modifies fs
      ensures fs.Valid()
      ensures Always(policy, old(fs.trace), fs.trace, {old(Now()), old(Now())[report.id := report]})
      ensures LoadsFully(policy, old(fs.files)) ==> AllLoadFully(policy, old(fs.trace), fs.trace)
      ensures r.Success? ==> leased && report.id !in policy.builtins && Now() == old(Now())[report.id := report]
      ensures (r.Success? && fs.refusals == old(fs.refusals)) ==>
          report.id in fs.files.roots && fs.files.roots[report.id].Safe?
          && fs.files.roots[report.id].versions.Keys == {report.version}
          && Tidy(old(fs.files), fs.files, None)
      ensures (fs.refusals == old(fs.refusals) && leased && report.id !in policy.builtins
          && LoadsFully(policy, old(fs.files)) && Fits(old(Now())[report.id := report])
          && ReceiptAdmits(old(fs.files), report) && RootAdmits(old(fs.files), report)
          && bundle.Some? && policy.inspect(bundle.value) == Some(report)) ==> r.Success?
      ensures fs.refusals == old(fs.refusals) && leased && LoadsFully(policy, old(fs.files)) ==>
          && (r == Failure(ReservedComponentId) <==> report.id in policy.builtins)
          && (r == Failure(SameVersionDifferentDigest) <==>
                report.id !in policy.builtins && OtherDigest(old(fs.files), report))
          && (r == Failure(CatalogFull) <==>
                report.id !in policy.builtins
                && ((report.id !in old(fs.files).receipts && |RegularReceipts(old(fs.files))| == 511)
                    || ((report.id in old(fs.files).receipts ==> !old(fs.files).receipts[report.id].Unsafe?)
                        && !OtherDigest(old(fs.files), report)
                        && TotalSize(old(Now())[report.id := report]) > 0x2000_0000)))
      ensures !leased ==> r == Failure(TransactionFailed) && fs.files == old(fs.files)
      ensures !r.Success? && fs.refusals <= old(fs.refusals) + 1 ==> SameVisible(old(fs.files), fs.files)
    {
      hide Loaded, CatalogOf, SameButAt, Get;
      if !leased {
        return Failure(TransactionFailed);
      }
      var verdict := Examine(report, origin);
      if verdict.Rejected? {
        return Failure(verdict.error);
      }
      if verdict.AlreadyThere? {
        Present(policy, fs.files, report.id);
        CleanUp(report, None);
        assert old(Now())[report.id := report] == old(Now());
        return Success;
      }
      r := Transact(report, bundle, origin);
    }

    method Transact(report: Report, bundle: Option<Tree>, ghost origin: Tree) returns (r: StoreResult)
      requires fs.Valid() && CollisionFree(policy) && policy.inspect(origin) == Some(report)
      requires MayInstall(policy, fs.files, report)
      modifies fs
      ensures fs.Valid() && fs.refusals >= old(fs.refusals)
      ensures Always(policy, old(fs.trace), fs.trace, {old(Now()), old(Now())[report.id := report]})
      ensures LoadsFully(policy, old(fs.files)) ==> AllLoadFully(policy, old(fs.trace), fs.trace)
      ensures r.Success? ==> Now() == old(Now())[report.id := report]
      ensures (r.Success? && fs.refusals == old(fs.refusals)) ==>
          report.id in fs.files.roots && fs.files.roots[report.id].Safe?
          && fs.files.roots[report.id].versions.Keys == {report.version}
          && Tidy(old(fs.files), fs.files, None)
      ensures (fs.refusals == old(fs.refusals) && bundle.Some? && policy.inspect(bundle.value) == Some(report)
          && RootAdmits(old(fs.files), report)) ==> r.Success?
      ensures !r.Success? ==> r == Failure(TransactionFailed)
      ensures !r.Success? && fs.refusals <= old(fs.refusals) + 1 ==> SameVisible(old(fs.files), fs.files)
    {
      hide Loaded, CatalogOf, SameButAt, Get, LoadsFully, Tidy;
      ghost var f, before := fs.files, fs.trace;
      SameAsItself(f, report.id, report.version);
      var staged, published, retired := Stage(report, bundle, f);
      PublishingIsSafe(policy, f, before, fs.trace, report, origin);
      if !staged {
        SameSeen(f, fs.files, report.id, report.version);
        return Failure(TransactionFailed);
      }
      ghost var middle, content := fs.trace, fs.files;
      var committed := Commit(report, published, retired, f);
      if !committed {
        PublishingIsSafe(policy, f, middle, fs.trace, report, origin);
        SameSeen(f, fs.files, report.id, report.version);
        return Failure(TransactionFailed);
      }
      CommittedLoads(policy, f, fs.files, report);
      ghost var g, late := fs.files, fs.trace;
      CleanUp(report, retired);
      if fs.refusals == old(fs.refusals) {
        TidyBehind(f, content, g, fs.files, retired);
      }
      SteadyLoads(policy, g, late, fs.trace);
      r := Success;
    }

    /** `pruneInactiveVersions`: everything beside the current version goes. */
    method Prune(id: Id, current: Version) returns (ok: bool)
      requires fs.Valid()
      requires id in fs.files.receipts && fs.files.receipts[id].Readable?
      requires fs.files.receipts[id].report.version == current
      modifies fs
      ensures fs.Valid() && fs.refusals >= old(fs.refusals)
      ensures Steady(policy, old(fs.files), old(fs.trace), fs.trace) && Now() == old(Now())
      ensures fs.files.receipts == old(fs.files).receipts && SameRetired(old(fs.files), fs.files)
      ensures ok ==> id in fs.files.roots && fs.files.roots[id].Safe? && fs.files.roots[id].versions.Keys == {current}
      ensures
        match old(Get(fs.files, Installed(id, current)))
        case Some(Directory(_)) => true
        case _ => fs.files == old(fs.files)
      ensures forall q | !Beside(q, id, {current}) :: Get(fs.files, q) == Get(old(fs.files), q)
      ensures (fs.refusals == old(fs.refusals)
          && old(Get(fs.files, Installed(id, current))).Some?
          && old(Get(fs.files, Installed(id, current))).value.Directory?) ==> ok
    {
      hide Loaded, CatalogOf;
      var here := Get(fs.files, Installed(id, current));
      if here.None? || here.value.Irregular? {
        return false;
      }
      KeysAreGets(fs.files, id);
      ok := RemoveVersions(id, {current});
    }

    /** Remove every version of a component but those to keep; the kept ones include whatever
        its receipt names. */
    method RemoveVersions(id: Id, keep: set<Version>) returns (ok: bool)
      requires fs.Valid() && Writable(fs.files, Installed(id, ""))
      requires forall v | v !in keep :: !Names(fs.files, id, v)
      modifies fs
      ensures fs.Valid() && fs.refusals >= old(fs.refusals)
      ensures Steady(policy, old(fs.files), old(fs.trace), fs.trace) && Now() == old(Now())
      ensures fs.files.receipts == old(fs.files).receipts && SameRetired(old(fs.files), fs.files)
      ensures Writable(fs.files, Installed(id, ""))
      ensures ok ==> fs.files.roots[id].versions.Keys == old(fs.files).roots[id].versions.Keys * keep
      ensures forall q | !Beside(q, id, keep) :: Get(fs.files, q) == Get(old(fs.files), q)
      ensures ok <==> fs.refusals == old(fs.refusals)
    {
      hide Loaded, CatalogOf;
      var todo := fs.files.roots[id].versions.Keys - keep;
      ghost var kept := fs.files.roots[id].versions.Keys * keep;
      ok := true;
      while todo != {}
        invariant fs.Valid() && fs.refusals == old(fs.refusals) && ok
        invariant Steady(policy, old(fs.files), old(fs.trace), fs.trace) && Now() == old(Now())
        invariant fs.files.receipts == old(fs.files).receipts && SameRetired(old(fs.files), fs.files)
        invariant Writable(fs.files, Installed(id, ""))
        invariant fs.files.roots[id].versions.Keys == kept + todo && todo !! keep
        invariant forall q | !Beside(q, id, keep) :: Get(fs.files, q) == Get(old(fs.files), q)
      {
        var w :| w in todo;
        ghost var keys := fs.files.roots[id].versions.Keys;
        ok := RemoveVersion(id, w);
        assert Writable(fs.files, Installed(id, w));
        if !ok {
          return;
        }
        todo := todo - {w};
        KeysAreGets(fs.files, id);
        assert fs.files.roots[id].versions.Keys == keys - {w};
      }
    }

    // ---- Removal ----

    method Remove(id: Id, expectedDigest: string) returns (r: StoreResult)
      requires fs.Valid()
      modifies fs
      ensures fs.Valid()
      ensures Always(policy, old(fs.trace), fs.trace, {old(Now()), old(Now()) - {id}})
      ensures LoadsFully(policy, old(fs.files)) ==> AllLoadFully(policy, old(fs.trace), fs.trace)
      ensures r.Success? ==>
          && id in old(Now()) && old(Now())[id].digest == expectedDigest && id !in policy.builtins
          && Now() == old(Now()) - {id} && id !in fs.files.receipts && id !in fs.files.roots
      ensures r.Success? && LoadsFully(policy, old(fs.files)) ==>
          forall k | k in Now() :: id !in Now()[k].dependencies
      ensures r == Failure(HasDependents) ==> exists k :: k in Now() && k != id && id in Now()[k].dependencies
      ensures r.Success? ==>
          && leased && fs.files.receipts == old(fs.files).receipts - {id}
          && fs.files.roots == old(fs.files).roots - {id}
      ensures !r.Success? && fs.refusals == old(fs.refusals) ==> fs.files == old(fs.files)
      ensures !r.Success? && fs.refusals == old(fs.refusals) + 1 ==> SameVisible(old(fs.files), fs.files)
      ensures fs.refusals == old(fs.refusals) ==> NothingRetired(old(fs.files), fs.files)
      ensures fs.refusals == old(fs.refusals) && leased && LoadsFully(policy, old(fs.files)) ==>
          r == if id in policy.builtins then Failure(BuiltinRemovalForbidden)
               else if id !in old(Now()) then Failure(UnknownComponent)
               else if old(Now())[id].digest != expectedDigest then Failure(DigestMismatch)
               else if exists k :: k in old(Now()) && k != id && id in old(Now())[k].dependencies then
                 Failure(HasDependents)
               else Success
    {
      hide Loaded, CatalogOf, Get;
      if !leased {
        return Failure(TransactionFailed);
      }
      if id in policy.builtins {
        return Failure(BuiltinRemovalForbidden);
      }
      var load := Load();
      if !load.ok {
        return Failure(TransactionFailed);
      }
      if id !in load.entries {
        return Failure(UnknownComponent);
      }
      LoadedEntry(policy, fs.files, load.entries, id);
      if load.entries[id].digest != expectedDigest {
        return Failure(DigestMismatch);
      }
      if k :| k in load.entries && k != id && id in load.entries[k].dependencies {
        LoadedEntry(policy, fs.files, load.entries, k);
        return Failure(HasDependents);
      }
      AllLoaded(policy, fs.files, load.entries);
      Present(policy, fs.files, id);
      r := Retract(id);
    }

    /** The receipt goes first; the content after it. */
    method Retract(id: Id) returns (r: StoreResult)
      requires fs.Valid() && id in fs.files.receipts && id in fs.files.roots
      modifies fs
      ensures fs.Valid()
      ensures RetractedBy(old(fs.files), old(fs.trace), id)
      ensures r.Success? ==>
          && Now() == old(Now()) - {id} && fs.files.receipts == old(fs.files).receipts - {id}
          && fs.files.roots == old(fs.files).roots - {id}
      ensures !r.Success? && fs.refusals == old(fs.refusals) + 1 ==> SameVisible(old(fs.files), fs.files)
      ensures fs.refusals == old(fs.refusals) ==> NothingRetired(old(fs.files), fs.files)
      ensures !r.Success? ==> r == Failure(TransactionFailed) && fs.refusals > old(fs.refusals)
    {
      hide Loaded, CatalogOf, LoadsFully, Get;
      var f := fs.files;
      var nonce: string := *;
      var retired := f.(receipts := f.receipts - {id},
                        trashedReceipts := f.trashedReceipts[nonce := f.receipts[id]]);
      var ok := StepRetired(f, id, retired);
      if !ok {
        return Failure(TransactionFailed);
      }
      ok := RetractContent(f, id, nonce);
      r := if ok then Success else Failure(TransactionFailed);
    }

    /** Everything seen so far is the state `f` or `f` without component `id`. */
    ghost predicate RetractedBy(f: Files, before: seq<Files>, id: Id)
      reads fs
    {
      && Always(policy, before, fs.trace, {CatalogOf(policy, f), CatalogOf(policy, f) - {id}})
      && (LoadsFully(policy, f) ==> AllLoadFully(policy, before, fs.trace))
    }

    method RetractContent(f: Files, id: Id, nonce: string) returns (ok: bool)
      requires fs.Valid() && id in f.receipts && id in f.roots
      requires fs.files == f.(receipts := f.receipts - {id},
                              trashedReceipts := f.trashedReceipts[nonce := f.receipts[id]])
      modifies fs
      ensures fs.Valid() && fs.refusals >= old(fs.refusals)
      ensures RetractedBy(f, old(fs.trace), id)
      ensures ok ==>
          && Now() == CatalogOf(policy, f) - {id} && fs.files.receipts == f.receipts - {id}
          && fs.files.roots == f.roots - {id}
      ensures !ok && fs.refusals == old(fs.refusals) + 1 ==> SameVisible(f, fs.files)
      ensures fs.refusals == old(fs.refusals) ==> NothingRetired(f, fs.files)
      ensures !ok ==> fs.refusals > old(fs.refusals)
    {
      hide Loaded, CatalogOf, LoadsFully;
      var retired := fs.files;
      var moved := retired.(roots := f.roots - {id}, trashedRoots := f.trashedRoots[nonce := f.roots[id]]);
      ok := StepRetired(f, id, moved);
      if ok {
        EmptyRetired(f, id, nonce);
      } else {
        var restored := retired.(receipts := f.receipts, trashedReceipts := retired.trashedReceipts - {nonce});
        TrashIsInvisible(policy, f, restored);
        SameLoads(policy, f, restored);
        var _ := fs.Step(restored);
      }
    }

    method EmptyRetired(f: Files, id: Id, nonce: string)
      requires fs.Valid() && fs.files.receipts == f.receipts - {id} && fs.files.roots == f.roots - {id}
      requires Now() == CatalogOf(policy, f) - {id}
      requires (fs.files.trashedReceipts - {nonce}).Items <= f.trashedReceipts.Items
      requires (fs.files.trashedRoots - {nonce}).Items <= f.trashedRoots.Items
      modifies fs
      ensures fs.Valid() && fs.refusals >= old(fs.refusals)
      ensures RetractedBy(f, old(fs.trace), id)
      ensures Now() == CatalogOf(policy, f) - {id} && fs.files.receipts == f.receipts - {id}
      ensures fs.files.roots == f.roots - {id}
      ensures fs.refusals == old(fs.refusals) ==> NothingRetired(f, fs.files)
    {
      hide Loaded, CatalogOf, LoadsFully;
      var _ := StepRetired(f, id, fs.files.(trashedReceipts := fs.files.trashedReceipts - {nonce}));
      var _ := StepRetired(f, id, fs.files.(trashedRoots := fs.files.trashedRoots - {nonce}));
    }

    /** A step to a state without the component's receipt. */
    method StepRetired(f: Files, id: Id, next: Files) returns (ok: bool)
      requires fs.Valid() && next.receipts == f.receipts - {id} && next.roots in {f.roots, f.roots - {id}}
      modifies fs
      ensures fs.Valid() && RetractedBy(f, old(fs.trace), id)
      ensures ok ==> fs.files == next && fs.refusals == old(fs.refusals) && Now() == CatalogOf(policy, f) - {id}
      ensures !ok ==> fs.files == old(fs.files) && fs.refusals == old(fs.refusals) + 1
    {
      hide Loaded, CatalogOf, LoadsFully;
      Retires(policy, f, next, id);
      ok := fs.Step(next);
    }

    // ---- Recovery ----

    /** Clear what interrupted transactions left and every version no receipt reaches. The
        catalog is the same at every step. */
    method Recover() returns (ok: bool)
      requires fs.Valid()
      modifies fs
      ensures fs.Valid() && fs.refusals >= old(fs.refusals)
      ensures Steady(policy, old(fs.files), old(fs.trace), fs.trace) && Now() == old(Now())
      ensures ok ==> leased && fs.files.staging == map[] && fs.files.trash == map[]
      ensures ok ==> fs.files.trashedRoots == map[] && fs.files.trashedReceipts == map[]
      ensures fs.files.receipts == old(fs.files).receipts
      ensures ok && fs.refusals == old(fs.refusals) ==> forall id :: Swept(policy, fs.files, id)
      ensures forall id | LeftAlone(policy, old(fs.files), id) :: SameVersions(old(fs.files), fs.files, id)
      ensures leased && fs.refusals == old(fs.refusals) ==> ok
    {
      hide Loaded, CatalogOf;
      ok := false;
      if !leased {
        return;
      }
      ok := ClearTransactions();
      if ok {
        ghost var cleared := fs.files;
        Sweep();
        SameAbove(policy, old(fs.files), cleared, fs.files);
        StillEmpty(cleared, fs.files);
      }
    }

    method ClearTransactions() returns (ok: bool)
      requires fs.Valid()
      modifies fs
      ensures fs.Valid() && fs.refusals >= old(fs.refusals)
      ensures Steady(policy, old(fs.files), old(fs.trace), fs.trace) && Now() == old(Now())
      ensures fs.files.receipts == old(fs.files).receipts && fs.files.roots == old(fs.files).roots
      ensures ok ==> fs.files.staging == map[] && fs.files.trash == map[]
      ensures ok ==> fs.files.trashedRoots == map[] && fs.files.trashedReceipts == map[]
      ensures ok <==> fs.refusals == old(fs.refusals)
    {
      hide Loaded, CatalogOf, Get;
      ok := ClearStaging();
      if !ok {
        return;
      }
      ok := ClearTrash();
      if !ok {
        return;
      }
      // Retired roots and receipts are read by nothing; each kind goes in one step.
      var next := fs.files.(trashedRoots := map[], trashedReceipts := map[]);
      SameRoots(policy, fs.files, next);
      ok := fs.Step(next);
    }

    method ClearStaging() returns (ok: bool)
      requires fs.Valid()
      modifies fs
      ensures fs.Valid() && fs.refusals >= old(fs.refusals)
      ensures Steady(policy, old(fs.files), old(fs.trace), fs.trace) && Now() == old(Now())
      ensures fs.files.receipts == old(fs.files).receipts && fs.files.roots == old(fs.files).roots
      ensures ok ==> fs.files.staging == map[]
      ensures ok <==> fs.refusals == old(fs.refusals)
    {
      hide Loaded, CatalogOf;
      ok := true;
      while fs.files.staging != map[]
        invariant fs.Valid() && fs.refusals == old(fs.refusals) && ok
        invariant Steady(policy, old(fs.files), old(fs.trace), fs.trace) && Now() == old(Now())
        invariant fs.files.receipts == old(fs.files).receipts && fs.files.roots == old(fs.files).roots
        decreases |fs.files.staging|
      {
        var n :| n in fs.files.staging;
        ghost var before := fs.files;
        ok := EmptyTrash(Staged(n));
        if !ok {
          return;
        }
        assert fs.files.staging == before.staging - {n} by { OnlyStagedGone(before, fs.files, n); }
      }
    }

    method ClearTrash() returns (ok: bool)
      requires fs.Valid()
      modifies fs
      ensures fs.Valid() && fs.refusals >= old(fs.refusals)
      ensures Steady(policy, old(fs.files), old(fs.trace), fs.trace) && Now() == old(Now())
      ensures fs.files.receipts == old(fs.files).receipts && fs.files.staging == old(fs.files).staging
      ensures fs.files.roots == old(fs.files).roots
      ensures ok ==> fs.files.trash == map[]
      ensures ok <==> fs.refusals == old(fs.refusals)
    {
      hide Loaded, CatalogOf;
      ok := true;
      while fs.files.trash != map[]
        invariant fs.Valid() && fs.refusals == old(fs.refusals) && ok
        invariant Steady(policy, old(fs.files), old(fs.trace), fs.trace) && Now() == old(Now())
        invariant fs.files.receipts == old(fs.files).receipts && fs.files.staging == old(fs.files).staging
        invariant fs.files.roots == old(fs.files).roots
        decreases |fs.files.trash|
      {
        var n :| n in fs.files.trash;
        ghost var before := fs.files;
        ok := EmptyTrash(Trashed(n));
        OnlyTrashedGone(before, fs.files, n);
        if !ok {
          return;
        }
      }
    }

    /** Per component root: an orphan loses every version, a committed one all but its
        receipt's. What cannot be trusted or removed is left as it is. */
    method Sweep()
      requires fs.Valid()
      modifies fs
      ensures fs.Valid() && fs.refusals >= old(fs.refusals)
      ensures Steady(policy, old(fs.files), old(fs.trace), fs.trace) && Now() == old(Now())
      ensures fs.files.receipts == old(fs.files).receipts && SameRetired(old(fs.files), fs.files)
      ensures forall id | LeftAlone(policy, old(fs.files), id) :: SameVersions(old(fs.files), fs.files, id)
      ensures forall n :: Get(fs.files, Staged(n)) == old(Get(fs.files, Staged(n)))
      ensures forall n :: Get(fs.files, Trashed(n)) == old(Get(fs.files, Trashed(n)))
      ensures fs.refusals == old(fs.refusals) ==> forall id :: Swept(policy, fs.files, id)
    {
      hide Loaded, CatalogOf, Swept;
      var todo := fs.files.roots.Keys;
      forall id | id !in todo
        ensures Swept(policy, fs.files, id)
      {
        NothingToSweep(policy, fs.files, id);
      }
      while todo != {}
        invariant fs.Valid() && fs.refusals >= old(fs.refusals)
        invariant Steady(policy, old(fs.files), old(fs.trace), fs.trace) && Now() == old(Now())
        invariant fs.files.receipts == old(fs.files).receipts && SameRetired(old(fs.files), fs.files)
        invariant forall id | id in todo || LeftAlone(policy, old(fs.files), id) ::
            SameVersions(old(fs.files), fs.files, id)
        invariant forall n :: Get(fs.files, Staged(n)) == old(Get(fs.files, Staged(n)))
        invariant forall n :: Get(fs.files, Trashed(n)) == old(Get(fs.files, Trashed(n)))
        invariant fs.refusals == old(fs.refusals) ==> forall id | id !in todo :: Swept(policy, fs.files, id)
      {
        var id :| id in todo;
        todo := todo - {id};
        ghost var before := fs.files;
        SweepComponent(id);
        SweptOthers(policy, old(fs.files), before, fs.files, id, todo);
      }
    }

    method SweepComponent(id: Id)
      requires fs.Valid()
      modifies fs
      ensures fs.Valid() && fs.refusals >= old(fs.refusals)
      ensures Steady(policy, old(fs.files), old(fs.trace), fs.trace) && Now() == old(Now())
      ensures fs.files.receipts == old(fs.files).receipts && SameRetired(old(fs.files), fs.files)
      ensures LeftAlone(policy, old(fs.files), id) ==> fs.files == old(fs.files)
      ensures forall q | !Beside(q, id, {}) :: Get(fs.files, q) == Get(old(fs.files), q)
      ensures forall k | k != id && Swept(policy, old(fs.files), k) :: Swept(policy, fs.files, k)
      ensures fs.refusals == old(fs.refusals) ==> Swept(policy, fs.files, id)
    {
      hide Loaded, CatalogOf;
      if id in policy.builtins || id !in fs.files.roots || fs.files.roots[id].Escaping? {
        return;
      }
      if id !in fs.files.receipts {
        var _ := RemoveVersions(id, {});
        KeysAreGets(fs.files, id);
      } else if fs.files.receipts[id].Readable? && fs.files.receipts[id].report.id == id {
        var _ := Prune(id, fs.files.receipts[id].report.version);
        if id in fs.files.roots && fs.files.roots[id].Safe? {
          KeysAreGets(fs.files, id);
        }
      }
    }
  }

  /** Sweeping one component keeps the others as they were, and it too if it is left alone. */
  lemma SweptOthers(policy: Policy, f: Files, before: Files, after: Files, id: Id, todo: set<Id>)
    requires f.receipts == before.receipts && id !in todo
    requires forall k | k in todo + {id} || LeftAlone(policy, f, k) :: SameVersions(f, before, k)
    requires forall q | !Beside(q, id, {}) :: Get(after, q) == Get(before, q)
    requires LeftAlone(policy, before, id) ==> after == before
    ensures forall k | k in todo || LeftAlone(policy, f, k) :: SameVersions(f, after, k)
  {
    forall k | k in todo || LeftAlone(policy, f, k)
      ensures SameVersions(f, after, k)
    {
      assert SameVersions(f, before, k);
      if k == id {
        SameCommitment(f, before, id);
      } else {
        assert forall w :: !Beside(Installed(k, w), id, {});
      }
    }
  }

  lemma SameAbove(policy: Policy, f: Files, cleared: Files, g: Files)
    requires f.receipts == cleared.receipts && f.roots == cleared.roots
    requires forall id | LeftAlone(policy, cleared, id) :: SameVersions(cleared, g, id)
    ensures forall id | LeftAlone(policy, f, id) :: SameVersions(f, g, id)
  {
    forall id | LeftAlone(policy, f, id)
      ensures SameVersions(f, g, id)
    {
      assert SameVersions(f, cleared, id);
      SameCommitment(f, cleared, id);
      assert SameVersions(cleared, g, id);
    }
  }

  lemma SameCommitment(f: Files, g: Files, id: Id)
    requires f.receipts == g.receipts && SameVersions(f, g, id)
    ensures Committed(f, id) == Committed(g, id)
  {
    if id in f.receipts && f.receipts[id].Readable? {
      var current := Installed(id, f.receipts[id].report.version);
      assert Get(f, current) == Get(g, current);
    }
  }

  lemma KeysAreGets(f: Files, id: Id)
    requires id in f.roots && f.roots[id].Safe?
    ensures forall v :: v in f.roots[id].versions <==> Get(f, Installed(id, v)).Some?
  {
  }

  lemma Untouched(f: Files, trace: seq<Files>, p: Place)
    ensures Removing(f, f, p) && RemovingRun(f, trace, trace, p)
  {
  }

  lemma SameKeys(c: Catalog, d: Catalog)
    requires c.Items <= d.Items && d.Keys <= c.Keys
    ensures c == d
  {
    forall id | id in c
      ensures id in d && c[id] == d[id]
    {
      assert (id, c[id]) in c.Items;
    }
  }

  lemma SameRoots(policy: Policy, f: Files, g: Files)
    requires f.receipts == g.receipts && f.roots == g.roots
    ensures CatalogOf(policy, f) == CatalogOf(policy, g)
  {
    TrashIsInvisible(policy, f, g);
  }

  lemma OnlyStagedGone(f: Files, g: Files, name: string)
    requires forall q | q != Staged(name) :: Get(f, q) == Get(g, q)
    requires Get(g, Staged(name)) == None
    ensures g.staging == f.staging - {name}
  {
    forall n
      ensures n in g.staging <==> n in f.staging - {name}
      ensures n in g.staging ==> g.staging[n] == f.staging[n]
    {
      assert n != name ==> Get(f, Staged(n)) == Get(g, Staged(n));
    }
  }

  lemma OnlyTrashedGone(f: Files, g: Files, name: string)
    requires forall q | q != Trashed(name) :: Get(f, q) == Get(g, q)
    ensures Get(g, Trashed(name)) == None ==> g.trash == f.trash - {name}
    ensures g.staging == f.staging
  {
    forall n
      ensures n in g.staging <==> n in f.staging
      ensures n in g.staging ==> g.staging[n] == f.staging[n]
    {
      assert Get(f, Staged(n)) == Get(g, Staged(n));
    }
    forall n | n != name
      ensures n in g.trash <==> n in f.trash
      ensures n in g.trash ==> g.trash[n] == f.trash[n]
    {
      assert Get(f, Trashed(n)) == Get(g, Trashed(n));
    }
  }

  lemma SameLoads(policy: Policy, f: Files, g: Files)
    requires f.receipts == g.receipts && CatalogOf(policy, f) == CatalogOf(policy, g)
    ensures LoadsFully(policy, f) ==> LoadsFully(policy, g)
  {
    assert RegularReceipts(f) == RegularReceipts(g);
  }

  lemma RetiredLoads(policy: Policy, f: Files, g: Files, id: Id)
    requires g.receipts == f.receipts - {id} && CatalogOf(policy, g) == CatalogOf(policy, f) - {id}
    ensures LoadsFully(policy, f) ==> LoadsFully(policy, g)
  {
    assert RegularReceipts(g) == RegularReceipts(f) - {id};
    SmallerIsLighter(CatalogOf(policy, g), CatalogOf(policy, f));
  }

  lemma Retires(policy: Policy, f: Files, g: Files, id: Id)
    requires g.receipts == f.receipts - {id} && g.roots in {f.roots, f.roots - {id}}
    ensures CatalogOf(policy, g) == CatalogOf(policy, f) - {id}
    ensures LoadsFully(policy, f) ==> LoadsFully(policy, g)
  {
    ReceiptRetires(policy, f, g, id);
    RetiredLoads(policy, f, g, id);
  }

  lemma StillEmpty(f: Files, g: Files)
    requires f.staging == map[] && f.trash == map[]
    requires forall n :: Get(f, Staged(n)) == Get(g, Staged(n)) && Get(f, Trashed(n)) == Get(g, Trashed(n))
    ensures g.staging == map[] && g.trash == map[]
  {
    forall n
      ensures n !in g.staging && n !in g.trash
    {
      assert Get(f, Staged(n)) == Get(g, Staged(n)) && Get(f, Trashed(n)) == Get(g, Trashed(n));
    }
  }

  lemma AllLoaded(policy: Policy, f: Files, entries: Catalog)
    requires entries.Items <= CatalogOf(policy, f).Items
    requires Fits(CatalogOf(policy, f)) ==> entries == CatalogOf(policy, f)
    ensures LoadsFully(policy, f) ==> entries == CatalogOf(policy, f)
  {
  }

  lemma TidyWithout(f: Files, placed: Files, g: Files, name: string, retired: Option<string>)
    requires forall p: Place | !p.Installed? && p != Staged(name) && (retired.Some? ==> p != Trashed(retired.value)) ::
        Get(placed, p) == Get(f, p)
    requires forall q | q != Staged(name) :: Get(g, q) == Get(placed, q)
    requires Get(g, Staged(name)) == None
    ensures Tidy(f, g, retired)
  {
  }

  lemma TidyBehind(f: Files, staged: Files, committed: Files, g: Files, retired: Option<string>)
    requires Tidy(f, staged, retired)
    requires committed.staging == staged.staging && committed.trash == staged.trash
    requires forall p: Place | !p.Installed? ::
        if retired.Some? && p == Trashed(retired.value) then Get(g, p) == None else Get(g, p) == Get(committed, p)
    ensures Tidy(f, g, None)
  {
    forall p: Place | !p.Installed?
      ensures Get(g, p) == None || Get(g, p) == Get(f, p)
    {
      assert Get(committed, p) == Get(staged, p);
    }
  }

  lemma SameSeen(f: Files, g: Files, id: Id, v: Version)
    requires SameButAt(f, g, id, v)
    ensures Get(f, Installed(id, v)) == Get(g, Installed(id, v)) ==> SameVisible(f, g)
  {
  }

  lemma SameAsItself(f: Files, id: Id, v: Version)
    ensures SameButAt(f, f, id, v)
  {
  }

  lemma Present(policy: Policy, f: Files, id: Id)
    requires id in CatalogOf(policy, f)
    ensures id in f.receipts && f.receipts[id] == Readable(CatalogOf(policy, f)[id])
    ensures CatalogOf(policy, f)[id].id == id
    ensures var here := Get(f, Installed(id, CatalogOf(policy, f)[id].version)); here.Some? && here.value.Directory?
    ensures id in f.roots && f.roots[id].Safe?
  {
  }

  lemma SteadyLoads(policy: Policy, f: Files, before: seq<Files>, after: seq<Files>)
    requires Steady(policy, f, before, after)
    ensures LoadsFully(policy, f) ==> AllLoadFully(policy, before, after)
  {
    forall i | |before| <= i < |after|
      ensures LoadsFully(policy, f) ==> LoadsFully(policy, after[i])
    {
      assert after[i].receipts == f.receipts;
      assert RegularReceipts(after[i]) == RegularReceipts(f);
    }
  }

  lemma CommittedLoads(policy: Policy, f: Files, g: Files, report: Report)
    requires MayInstall(policy, f, report) && CatalogOf(policy, g) == CatalogOf(policy, f)[report.id := report]
    requires g.receipts == f.receipts[report.id := Readable(report)]
    ensures LoadsFully(policy, f) ==> LoadsFully(policy, g)
  {
    assert RegularReceipts(g) == RegularReceipts(f) + {report.id};
  }

  lemma LoadedEntry(policy: Policy, f: Files, entries: Catalog, id: Id)
    requires entries.Items <= CatalogOf(policy, f).Items && id in entries
    ensures id in f.receipts && f.receipts[id] == Readable(entries[id]) && entries[id].id == id
    ensures Loaded(policy, f, id) == Some(entries[id])
    ensures id in CatalogOf(policy, f) && CatalogOf(policy, f)[id] == entries[id]
  {
    assert (id, entries[id]) in entries.Items;
  }

  /** The space check of `install`, against what `Load` reported: exact when the catalog fits. */
  lemma RoomIsExact(c: Catalog, entries: Catalog, report: Report)
    requires Fits(c) ==> entries == c
    ensures var existing := if report.id in entries then entries[report.id].size else 0;
      && existing <= TotalSize(entries)
      && (Fits(c) ==> (TotalSize(entries) - existing + report.size <= MAXIMUM_CATALOG_BYTES
                       <==> Fits(c[report.id := report])))
  {
    ReplacedSize(entries, report.id, report);
    if report.id in entries {
      TotalSizeOf(entries, report.id);
    } else {
      assert entries - {report.id} == entries;
    }
  }

  /** With room for the report, a component that `Load` left out cannot be this very package. */
  lemma RoomMeansClear(policy: Policy, f: Files, entries: Catalog, report: Report, origin: Tree)
    requires CollisionFree(policy) && policy.inspect(origin) == Some(report) && report.id !in policy.builtins
    requires entries.Items <= CatalogOf(policy, f).Items
    requires forall id | id in CatalogOf(policy, f) && id !in entries ::
        TotalSize(entries) + CatalogOf(policy, f)[id].size > MAXIMUM_CATALOG_BYTES
    requires report.id in entries ==> entries[report.id].digest != report.digest
    requires report.id !in entries ==> TotalSize(entries) + report.size <= MAXIMUM_CATALOG_BYTES
    requires (Names(f, report.id, report.version) && f.receipts[report.id].report.id == report.id) ==>
        f.receipts[report.id].report.digest == report.digest
    ensures Clear(policy, f, report)
  {
    hide TotalSize;
    if report.id in entries {
      LoadedEntry(policy, f, entries, report.id);
    } else {
      OneReportPerDigest(policy, f, report, origin);
    }
  }

  /** A loaded package with the digest of `report` is `report`. */
  lemma OneReportPerDigest(policy: Policy, f: Files, report: Report, origin: Tree)
    requires CollisionFree(policy) && policy.inspect(origin) == Some(report)
    ensures Loaded(policy, f, report.id).Some? && Loaded(policy, f, report.id).value.digest == report.digest ==>
        Loaded(policy, f, report.id) == Some(report)
  {
    var found := Loaded(policy, f, report.id);
    if found.Some? && found.value.digest == report.digest {
      var tree := Get(f, Installed(report.id, found.value.version)).value.tree;
      assert policy.inspect(tree) == Some(found.value);
      assert tree == origin;
    }
  }

  lemma SubCatalog(c: Catalog, id: Id, r: Report, large: Catalog)
    requires c.Items <= large.Items && id in large && large[id] == r
    ensures c[id := r].Items <= large.Items
  {
    forall item | item in c[id := r].Items
      ensures item in large.Items
    {
      if item.0 != id {
        assert item in c.Items;
      }
    }
  }

  // ---- A crash and the restart after it ----

  /** Recovery left nothing behind: nothing staged, in the trash or retired, and under each
      component only what its receipt reaches. */
  ghost predicate Recovered(policy: Policy, f: Files) {
    && f.staging == map[] && f.trash == map[] && f.trashedRoots == map[] && f.trashedReceipts == map[]
    && forall id :: Swept(policy, f, id)
  }

  /** What a new process makes of whatever state it finds; `clean` when it could take the lease
      and no file operation was refused. */
  method Restart(found: Files, policy: Policy) returns (r: LoadResult, recovered: Files, clean: bool)
    ensures CatalogOf(policy, recovered) == CatalogOf(policy, found)
    ensures r.ok && LoadsFully(policy, found) ==> r.entries == CatalogOf(policy, found)
    ensures clean && LoadsFully(policy, found) ==> r.ok
    ensures clean ==> Recovered(policy, recovered)
    ensures r.ok ==> recovered.staging == map[] && recovered.trash == map[]
    ensures r.ok ==> recovered.trashedRoots == map[] && recovered.trashedReceipts == map[]
  {
    hide CatalogOf, Loaded, Swept;
    var fs := new FileSystem(found);
    var store := new UserPackageStore(policy, fs);
    var ok := store.Recover();
    clean := ok && fs.refusals == 0;
    r := store.Load();
    recovered := fs.files;
    if !ok {
      r := r.(ok := false);
    }
  }

  /** An installation that dies anywhere, and the process that comes after it. */
  method InstallCrashRestart(first: Files, policy: Policy, report: Report, bundle: Option<Tree>, ghost origin: Tree)
    returns (r: LoadResult, recovered: Files, clean: bool)
    requires CollisionFree(policy) && policy.inspect(origin) == Some(report)
    ensures r.ok && LoadsFully(policy, first) ==>
        r.entries in {CatalogOf(policy, first), CatalogOf(policy, first)[report.id := report]}
    ensures CatalogOf(policy, recovered) in {CatalogOf(policy, first), CatalogOf(policy, first)[report.id := report]}
    ensures clean && LoadsFully(policy, first) ==> r.ok
    ensures clean ==> Recovered(policy, recovered)
  {
    hide CatalogOf, Loaded, LoadsFully, Recovered;
    var fs := new FileSystem(first);
    var store := new UserPackageStore(policy, fs);
    var _ := store.Install(report, bundle, origin);
    var death: nat :| death < |fs.trace|;
    assert death == 0 ==> fs.trace[death] == first;
    r, recovered, clean := Restart(fs.trace[death], policy);
  }

  method RemoveCrashRestart(first: Files, policy: Policy, id: Id, digest: string)
    returns (r: LoadResult, recovered: Files, clean: bool)
    ensures r.ok && LoadsFully(policy, first) ==>
        r.entries in {CatalogOf(policy, first), CatalogOf(policy, first) - {id}}
    ensures CatalogOf(policy, recovered) in {CatalogOf(policy, first), CatalogOf(policy, first) - {id}}
    ensures clean && LoadsFully(policy, first) ==> r.ok
    ensures clean ==> Recovered(policy, recovered)
  {
    hide CatalogOf, Loaded, LoadsFully, Recovered;
    var fs := new FileSystem(first);
    var store := new UserPackageStore(policy, fs);
    var _ := store.Remove(id, digest);
    var death: nat :| death < |fs.trace|;
    assert death == 0 ==> fs.trace[death] == first;
    r, recovered, clean := Restart(fs.trace[death], policy);
  }

  /** Collision-free policies that accept a package exist. */
  lemma SomePolicyIsCollisionFree(tree: Tree, report: Report) returns (policy: Policy)
    ensures CollisionFree(policy) && policy.inspect(tree) == Some(report)
  {
    policy := Policy(t => if t == tree then Some(report) else None, {});
  }
}
