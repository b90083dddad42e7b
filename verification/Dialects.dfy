/** Which package serves a provider dialect: builtin packages, scanned packages and the
    operator's explicit entries merged into one map. */
module Dialects {
  import opened Machine
  import opened Sequences

  const NEWLY_RESERVED: set<string> := {"azure-openai-v1"}

  /** Where a package's bytes live: compiled in, or a directory under the plugins directory. */
  datatype Source = Builtin | Dir(name: string)

  datatype Manifest = Provider(name: string, dialects: seq<string>) | AgentAdapter

  datatype Package = Package(manifest: Manifest, source: Source, conformancePassed: bool) {
    function Dialects(): seq<string> {
      if manifest.Provider? then manifest.dialects else []
    }

    /** The name a binding carries: the manifest's for a builtin, the directory's otherwise. */
    function BindingName(): string
      requires manifest.Provider?
    {
      if source.Builtin? then manifest.name else source.name
    }
  }

  datatype Origin = FromBuiltin | Discovered | Configured

  datatype Binding = Binding(package: string, source: Source, origin: Origin)

  type Bindings = map<string, Binding>

  // ----- Binding what the manifests declare -----

  /** One declared dialect, against the bindings made so far; `None` refuses the whole set. */
  function Claim(b: Bindings, p: Package, dialect: string): Option<Bindings>
    requires p.manifest.Provider?
  {
    if dialect !in b then
      Some(b[dialect := Binding(p.BindingName(), p.source, if p.source.Builtin? then FromBuiltin else Discovered)])
    else if b[dialect].origin == FromBuiltin then
      if dialect in NEWLY_RESERVED && b[dialect].package != p.manifest.name then None else Some(b)
    else None
  }

  function ClaimAll(b: Bindings, p: Package, dialects: seq<string>): Option<Bindings>
    requires p.manifest.Provider?
  {
    if dialects == [] then Some(b)
    else
      match ClaimAll(b, p, dialects[..|dialects| - 1])
      case None => None
      case Some(earlier) => Claim(earlier, p, dialects[|dialects| - 1])
  }

  predicate Trusted(p: Package, allowUnsigned: bool) {
    p.manifest.Provider? && (p.conformancePassed || allowUnsigned)
  }

  function BindNext(b: Bindings, p: Package, allowUnsigned: bool): Option<Bindings> {
    if Trusted(p, allowUnsigned) then ClaimAll(b, p, p.manifest.dialects) else Some(b)
  }

  function BindDeclared(packages: seq<Package>, allowUnsigned: bool): Option<Bindings> {
    if packages == [] then Some(map[])
    else
      var p := packages[|packages| - 1];
      match BindDeclared(packages[..|packages| - 1], allowUnsigned)
      case None => None
      case Some(b) => BindNext(b, p, allowUnsigned)
  }

  // ----- Merging the explicit entries -----

  /** An explicit entry: the operator vouches for the package directory. */
  datatype Entry = Entry(dialect: string, package: string)

  /** The first scanned package whose directory has this name. */
  function FindDir(packages: seq<Package>, name: string): Option<Package> {
    if packages == [] then None
    else if packages[0].source == Dir(name) then Some(packages[0])
    else FindDir(packages[1..], name)
  }

  /** The directory was scanned and its manifest does not declare the dialect. */
  predicate Contradicted(packages: seq<Package>, e: Entry) {
    match FindDir(packages, e.package)
    case None => false
    case Some(found) => e.dialect !in found.Dialects()
  }

  function MergeOne(packages: seq<Package>, b: Bindings, e: Entry): Option<Bindings> {
    if e.dialect in b then
      if b[e.dialect].origin == FromBuiltin then
        if b[e.dialect].package != e.package && e.dialect in NEWLY_RESERVED then None else Some(b)
      else if b[e.dialect].package == e.package then Some(b)
      else None
    else if Contradicted(packages, e) then None
    else Some(b[e.dialect := Binding(e.package, Dir(e.package), Configured)])
  }

  function MergeExplicit(packages: seq<Package>, b: Bindings, entries: seq<Entry>): Option<Bindings> {
    if entries == [] then Some(b)
    else
      match MergeExplicit(packages, b, entries[..|entries| - 1])
      case None => None
      case Some(earlier) => MergeOne(packages, earlier, entries[|entries| - 1])
  }

  /** The registry's provider map: declared bindings, then explicit entries. */
  function Registry(packages: seq<Package>, allowUnsigned: bool, entries: seq<Entry>): Option<Bindings> {
    match BindDeclared(packages, allowUnsigned)
    case None => None
    case Some(b) => MergeExplicit(packages, b, entries)
  }

  // ----- The loops of the source -----

  lemma {:induction false} RefusedClaimStays(b: Bindings, p: Package, dialects: seq<string>, n: nat)
    requires p.manifest.Provider? && n <= |dialects|
    requires ClaimAll(b, p, dialects[..n]) == None
    ensures ClaimAll(b, p, dialects) == None
    decreases |dialects|
  {
    if n == |dialects| {
      assert dialects[..n] == dialects;
    } else {
      var front := dialects[..|dialects| - 1];
      assert front[..n] == dialects[..n];
      RefusedClaimStays(b, p, front, n);
    }
  }

  lemma {:induction false} RefusedSetStays(packages: seq<Package>, allowUnsigned: bool, n: nat)
    requires n <= |packages| && BindDeclared(packages[..n], allowUnsigned) == None
    ensures BindDeclared(packages, allowUnsigned) == None
    decreases |packages|
  {
    if n == |packages| {
      assert packages[..n] == packages;
    } else {
      var front := packages[..|packages| - 1];
      assert front[..n] == packages[..n];
      RefusedSetStays(front, allowUnsigned, n);
    }
  }

  /** `bind_declared_dialects`. */
  method BindDeclaredDialects(packages: seq<Package>, allowUnsigned: bool) returns (r: Option<Bindings>)
    ensures r == BindDeclared(packages, allowUnsigned)
  {
    var providers: Bindings := map[];
    for i := 0 to |packages|
      invariant BindDeclared(packages[..i], allowUnsigned) == Some(providers)
    {
      var p := packages[i];
      assert packages[..i + 1][..i] == packages[..i];
      if Trusted(p, allowUnsigned) {
        var dialects := p.manifest.dialects;
        ghost var before := providers;
        for j := 0 to |dialects|
          invariant ClaimAll(before, p, dialects[..j]) == Some(providers)
        {
          assert dialects[..j + 1][..j] == dialects[..j];
          var dialect := dialects[j];
          if dialect !in providers {
            var origin := if p.source.Builtin? then FromBuiltin else Discovered;
            providers := providers[dialect := Binding(p.BindingName(), p.source, origin)];
          } else if providers[dialect].origin != FromBuiltin
            || (dialect in NEWLY_RESERVED && providers[dialect].package != p.manifest.name)
          {
            RefusedClaimStays(before, p, dialects, j + 1);
            RefusedSetStays(packages, allowUnsigned, i + 1);
            return None;
          }
        }
        assert dialects[..|dialects|] == dialects;
      }
    }
    assert packages[..|packages|] == packages;
    r := Some(providers);
  }

  lemma {:induction false} RefusedMergeStays(packages: seq<Package>, b: Bindings, entries: seq<Entry>, n: nat)
    requires n <= |entries| && MergeExplicit(packages, b, entries[..n]) == None
    ensures MergeExplicit(packages, b, entries) == None
    decreases |entries|
  {
    if n == |entries| {
      assert entries[..n] == entries;
    } else {
      var front := entries[..|entries| - 1];
      assert front[..n] == entries[..n];
      RefusedMergeStays(packages, b, front, n);
    }
  }

  /** `merge_explicit_entries`. */
  method MergeExplicitEntries(packages: seq<Package>, declared: Bindings, entries: seq<Entry>)
    returns (r: Option<Bindings>)
    ensures r == MergeExplicit(packages, declared, entries)
  {
    var providers := declared;
    for i := 0 to |entries|
      invariant MergeExplicit(packages, declared, entries[..i]) == Some(providers)
    {
      assert entries[..i + 1][..i] == entries[..i];
      var e := entries[i];
      if e.dialect in providers {
        var existing := providers[e.dialect];
        if existing.package != e.package && (existing.origin != FromBuiltin || e.dialect in NEWLY_RESERVED) {
          RefusedMergeStays(packages, declared, entries, i + 1);
          return None;
        }
      } else if Contradicted(packages, e) {
        RefusedMergeStays(packages, declared, entries, i + 1);
        return None;
      } else {
        providers := providers[e.dialect := Binding(e.package, Dir(e.package), Configured)];
      }
    }
    assert entries[..|entries|] == entries;
    r := Some(providers);
  }

  // ----- What the builtin tier and the scan hand over -----

  predicate AllBuiltin(packages: seq<Package>) {
    forall p :: p in packages ==> p.source.Builtin?
  }

  /** The scan reads one package per directory. */
  predicate Scanned(packages: seq<Package>) {
    && (forall p :: p in packages ==> p.source.Dir?)
    && (forall i, j :: 0 <= i < j < |packages| ==> packages[i].source != packages[j].source)
  }

  /** The package is a provider whose manifest declares the dialect. */
  predicate Declares(p: Package, dialect: string) {
    p.manifest.Provider? && dialect in p.manifest.dialects
  }

  /** The package declares the dialect, and its bytes match a receipt or need none. */
  predicate Serves(p: Package, dialect: string, allowUnsigned: bool) {
    Declares(p, dialect) && (p.conformancePassed || allowUnsigned)
  }

  function DirBinding(p: Package): Binding
    requires p.source.Dir?
  {
    Binding(p.source.name, p.source, Discovered)
  }

  function BuiltinBinding(p: Package): Binding
    requires p.manifest.Provider?
  {
    Binding(p.manifest.name, Builtin, FromBuiltin)
  }

  /** The builtin binding of a dialect is that of the first builtin that serves it. */
  ghost predicate FirstServes(builtins: seq<Package>, allowUnsigned: bool, d: string, b: Binding) {
    exists i :: 0 <= i < |builtins| && Serves(builtins[i], d, allowUnsigned) && b == BuiltinBinding(builtins[i])
      && forall j :: 0 <= j < i ==> !Serves(builtins[j], d, allowUnsigned)
  }

  predicate BothServe(p: Package, q: Package, d: string, allowUnsigned: bool) {
    d in NEWLY_RESERVED && Serves(p, d, allowUnsigned) && Serves(q, d, allowUnsigned)
  }

  /** No newly reserved dialect is served by two builtins of different names. */
  ghost predicate TierAgrees(builtins: seq<Package>, allowUnsigned: bool) {
    forall p, q, d :: p in builtins && q in builtins && BothServe(p, q, d, allowUnsigned) ==>
      p.manifest.name == q.manifest.name
  }

  /** None of the dialects is newly reserved and bound to a builtin of another name. */
  ghost predicate Unopposed(b: Bindings, p: Package, dialects: seq<string>)
    requires p.manifest.Provider?
  {
    forall d :: d in dialects && d in b && d in NEWLY_RESERVED ==> b[d].package == p.manifest.name
  }

  lemma {:induction false} BuiltinClaims(b: Bindings, p: Package, dialects: seq<string>)
    requires p.manifest.Provider? && p.source.Builtin?
    requires forall d :: d in b ==> b[d].origin == FromBuiltin
    ensures match ClaimAll(b, p, dialects)
            case None => !Unopposed(b, p, dialects)
            case Some(c) =>
              && Unopposed(b, p, dialects)
              && (forall d :: d in c <==> d in b || d in dialects)
              && (forall d :: d in c ==> c[d] == if d in b then b[d] else BuiltinBinding(p))
  {
    if dialects != [] {
      var front, last := dialects[..|dialects| - 1], dialects[|dialects| - 1];
      BuiltinClaims(b, p, front);
      assert forall d :: d in dialects <==> d in front || d == last;
    }
  }

  /** Every served dialect, bound to the first builtin that serves it. */
  ghost predicate FirstComeFirstServed(builtins: seq<Package>, allowUnsigned: bool, bb: Bindings) {
    && (forall d :: d in bb ==> bb[d].origin == FromBuiltin && FirstServes(builtins, allowUnsigned, d, bb[d]))
    && (forall p, d :: p in builtins && Serves(p, d, allowUnsigned) ==> d in bb)
  }

  /** The builtin tier is refused exactly when it disagrees with itself about a newly reserved
      dialect; otherwise each dialect it serves is bound to the first builtin that serves it. */
  lemma {:induction false} BuiltinTier(builtins: seq<Package>, allowUnsigned: bool)
    requires AllBuiltin(builtins)
    ensures match BindDeclared(builtins, allowUnsigned)
            case None => !TierAgrees(builtins, allowUnsigned)
            case Some(bb) => TierAgrees(builtins, allowUnsigned) && FirstComeFirstServed(builtins, allowUnsigned, bb)
  {
    if builtins != [] {
      var front, p := builtins[..|builtins| - 1], builtins[|builtins| - 1];
      assert builtins == front + [p] && p in builtins;
      assert forall q :: q in front ==> q in builtins;
      BuiltinTier(front, allowUnsigned);
      var before := BindDeclared(front, allowUnsigned);
      if before.Some? {
        BuiltinAgrees(front, p, allowUnsigned, before.value);
        if BindNext(before.value, p, allowUnsigned).Some? {
          BuiltinNext(front, p, allowUnsigned, before.value, BindNext(before.value, p, allowUnsigned).value);
        }
      }
    }
  }

  lemma ServedFromFront(front: seq<Package>, allowUnsigned: bool, b: Bindings, d: string) returns (q: Package)
    requires FirstComeFirstServed(front, allowUnsigned, b) && d in b
    ensures q in front && Serves(q, d, allowUnsigned) && b[d].package == q.manifest.name
  {
    assert FirstServes(front, allowUnsigned, d, b[d]);
    var i :| 0 <= i < |front| && Serves(front[i], d, allowUnsigned) && b[d] == BuiltinBinding(front[i]);
    q := front[i];
  }

  /** The next builtin is accepted exactly when the tier still agrees with it. */
  lemma BuiltinAgrees(front: seq<Package>, p: Package, allowUnsigned: bool, b: Bindings)
    requires p.source.Builtin? && TierAgrees(front, allowUnsigned) && FirstComeFirstServed(front, allowUnsigned, b)
    ensures BindNext(b, p, allowUnsigned).Some? <==> TierAgrees(front + [p], allowUnsigned)
  {
    var all := front + [p];
    assert all[|front|] == p;
    assert forall q :: q in all <==> q in front || q == p;
    if Trusted(p, allowUnsigned) {
      BuiltinClaims(b, p, p.manifest.dialects);
      if Unopposed(b, p, p.manifest.dialects) {
        forall q, d | q in front && BothServe(p, q, d, allowUnsigned) ensures p.manifest.name == q.manifest.name {
          var r := ServedFromFront(front, allowUnsigned, b, d);
          assert BothServe(r, q, d, allowUnsigned);
        }
        forall q, d | q in front && BothServe(q, p, d, allowUnsigned) ensures p.manifest.name == q.manifest.name {
          assert BothServe(p, q, d, allowUnsigned);
        }
      } else {
        var d :| d in p.manifest.dialects && d in b && d in NEWLY_RESERVED && b[d].package != p.manifest.name;
        var r := ServedFromFront(front, allowUnsigned, b, d);
        assert BothServe(p, r, d, allowUnsigned);
      }
    }
  }

  lemma BuiltinNext(front: seq<Package>, p: Package, allowUnsigned: bool, b: Bindings, c: Bindings)
    requires p.source.Builtin? && BindNext(b, p, allowUnsigned) == Some(c)
    requires FirstComeFirstServed(front, allowUnsigned, b)
    ensures FirstComeFirstServed(front + [p], allowUnsigned, c)
  {
    if Trusted(p, allowUnsigned) {
      BuiltinClaims(b, p, p.manifest.dialects);
    }
    var all := front + [p];
    assert all[|front|] == p && forall i :: 0 <= i < |front| ==> all[i] == front[i];
    forall d | d in c ensures c[d].origin == FromBuiltin && FirstServes(all, allowUnsigned, d, c[d]) {
      if d in b {
        var i :| 0 <= i < |front| && Serves(front[i], d, allowUnsigned) && b[d] == BuiltinBinding(front[i])
          && forall j :: 0 <= j < i ==> !Serves(front[j], d, allowUnsigned);
        assert Serves(all[i], d, allowUnsigned);
      } else {
        assert Serves(all[|front|], d, allowUnsigned);
        assert forall j :: 0 <= j < |front| ==> all[j] in front;
      }
    }
    assert forall q :: q in all <==> q in front || q == p;
  }

  // ----- Exactly when the declared dialects bind, and to what -----

  /** A directory package's claims sit with the builtin tier: outside it nothing is claimed
      twice, and a newly reserved dialect of the tier is claimed only by that tier's own copy. */
  predicate Fits(bb: Bindings, p: Package)
    requires p.manifest.Provider?
  {
    var ds := p.manifest.dialects;
    && (forall i :: 0 <= i < |ds| && ds[i] in bb && ds[i] in NEWLY_RESERVED ==> bb[ds[i]].package == p.manifest.name)
    && (forall i, j :: 0 <= i < j < |ds| && ds[i] == ds[j] ==> ds[i] in bb)
  }

  /** No two trusted directory packages claim one dialect the builtin tier leaves free. */
  ghost predicate Compatible(bb: Bindings, dirs: seq<Package>, allowUnsigned: bool) {
    && (forall p :: p in dirs && Trusted(p, allowUnsigned) ==> Fits(bb, p))
    && (forall p, q, d :: p in dirs && q in dirs && p != q && Serves(p, d, allowUnsigned) && Serves(q, d, allowUnsigned)
          ==> d in bb)
  }

  ghost predicate ServedIn(dirs: seq<Package>, d: string, allowUnsigned: bool) {
    exists p :: p in dirs && Serves(p, d, allowUnsigned)
  }

  /** The builtin tier unchanged, and beside it each served dialect bound to its server. */
  ghost predicate BindsExactly(bb: Bindings, dirs: seq<Package>, allowUnsigned: bool, b: Bindings)
    requires forall p :: p in dirs ==> p.source.Dir?
  {
    && (forall d :: d in bb ==> d in b && b[d] == bb[d])
    && (forall d :: d in b ==> d in bb || ServedIn(dirs, d, allowUnsigned))
    && (forall p, d :: p in dirs && Serves(p, d, allowUnsigned) ==> d in b && (d in bb || b[d] == DirBinding(p)))
  }

  ghost predicate Extends(b: Bindings, p: Package, ds: seq<string>, c: Bindings)
    requires p.source.Dir?
  {
    && (forall d :: d in b ==> d in c && c[d] == b[d])
    && (forall d :: d in c ==> d in b || d in ds)
    && (forall d :: d in ds ==> d in c && (d in b || c[d] == DirBinding(p)))
  }

  ghost predicate ClaimsFit(bb: Bindings, b: Bindings, p: Package, ds: seq<string>)
    requires p.manifest.Provider?
  {
    && (forall i :: 0 <= i < |ds| && ds[i] in bb && ds[i] in NEWLY_RESERVED ==> bb[ds[i]].package == p.manifest.name)
    && (forall i :: 0 <= i < |ds| && ds[i] !in bb ==> ds[i] !in b)
    && (forall i, j :: 0 <= i < j < |ds| && ds[i] == ds[j] ==> ds[i] in bb)
  }

  lemma ClaimsFitPrefix(bb: Bindings, b: Bindings, p: Package, ds: seq<string>, n: nat)
    requires p.manifest.Provider? && n <= |ds|
    ensures ClaimsFit(bb, b, p, ds) ==> ClaimsFit(bb, b, p, ds[..n])
  {
  }

  lemma ClaimOne(bb: Bindings, b: Bindings, p: Package, front: seq<string>, d: string, c: Bindings)
    requires p.manifest.Provider? && p.source.Dir?
    requires forall e :: e in bb ==> e in b && b[e] == bb[e] && bb[e].origin == FromBuiltin
    requires forall e :: e in b && e !in bb ==> b[e].origin != FromBuiltin
    requires ClaimsFit(bb, b, p, front) && Extends(b, p, front, c)
    ensures match Claim(c, p, d)
            case None => !ClaimsFit(bb, b, p, front + [d])
            case Some(after) => ClaimsFit(bb, b, p, front + [d]) && Extends(b, p, front + [d], after)
  {
    var ds := front + [d];
    assert ds[|front|] == d;
    if d in c && d !in bb && d !in b {
      var i :| 0 <= i < |front| && front[i] == d;
      assert ds[i] == ds[|front|];
    }
  }

  /** `ClaimAll` for one directory package: accepted if and only if its claims fit. */
  lemma {:induction false} ClaimsExactly(bb: Bindings, b: Bindings, p: Package, ds: seq<string>)
    requires p.manifest.Provider? && p.source.Dir?
    requires forall d :: d in bb ==> d in b && b[d] == bb[d] && bb[d].origin == FromBuiltin
    requires forall d :: d in b && d !in bb ==> b[d].origin != FromBuiltin
    ensures match ClaimAll(b, p, ds)
            case None => !ClaimsFit(bb, b, p, ds)
            case Some(c) => ClaimsFit(bb, b, p, ds) && Extends(b, p, ds, c)
  {
    if ds != [] {
      var front, d := ds[..|ds| - 1], ds[|ds| - 1];
      ClaimsExactly(bb, b, p, front);
      assert ds == front + [d];
      if ClaimAll(b, p, front).None? {
        ClaimsFitPrefix(bb, b, p, ds, |ds| - 1);
      } else {
        ClaimOne(bb, b, p, front, d, ClaimAll(b, p, front).value);
      }
    }
  }

  lemma CompatiblePrefix(bb: Bindings, front: seq<Package>, p: Package, allowUnsigned: bool)
    ensures Compatible(bb, front + [p], allowUnsigned) ==> Compatible(bb, front, allowUnsigned)
  {
    assert forall q :: q in front ==> q in front + [p];
  }

  lemma NewcomerFits(bb: Bindings, front: seq<Package>, p: Package, allowUnsigned: bool, b: Bindings)
    requires p.source.Dir? && (forall q :: q in front ==> q.source.Dir?)
    requires Trusted(p, allowUnsigned) && ClaimsFit(bb, b, p, p.manifest.dialects)
    requires Compatible(bb, front, allowUnsigned) && BindsExactly(bb, front, allowUnsigned, b)
    ensures Compatible(bb, front + [p], allowUnsigned)
  {
    assert forall q :: q in front + [p] <==> q in front || q == p;
    assert Fits(bb, p);
    forall q, d | q in front && Serves(p, d, allowUnsigned) && Serves(q, d, allowUnsigned)
      ensures d in bb
    {
      assert d in b;
    }
  }

  lemma NewcomerClashes(bb: Bindings, front: seq<Package>, p: Package, allowUnsigned: bool, b: Bindings)
    requires p.source.Dir? && p !in front && (forall q :: q in front ==> q.source.Dir?)
    requires Trusted(p, allowUnsigned) && !ClaimsFit(bb, b, p, p.manifest.dialects)
    requires BindsExactly(bb, front, allowUnsigned, b)
    ensures !Compatible(bb, front + [p], allowUnsigned)
  {
    var ds := p.manifest.dialects;
    assert p in front + [p] && (forall q :: q in front ==> q in front + [p]);
    if Fits(bb, p) {
      var i :| 0 <= i < |ds| && ds[i] !in bb && ds[i] in b;
      var q :| q in front && Serves(q, ds[i], allowUnsigned);
      assert Serves(p, ds[i], allowUnsigned);
    }
  }

  lemma ServedInMore(front: seq<Package>, p: Package, d: string, allowUnsigned: bool)
    ensures ServedIn(front + [p], d, allowUnsigned) <==> ServedIn(front, d, allowUnsigned) || Serves(p, d, allowUnsigned)
  {
    var all := front + [p];
    assert all[|front|] == p;
    assert forall q :: q in all <==> q in front || q == p;
  }

  lemma NewcomerBound(bb: Bindings, front: seq<Package>, p: Package, allowUnsigned: bool, b: Bindings, c: Bindings)
    requires p.source.Dir? && (forall q :: q in front ==> q.source.Dir?)
    requires Trusted(p, allowUnsigned) && ClaimsFit(bb, b, p, p.manifest.dialects)
    requires BindsExactly(bb, front, allowUnsigned, b) && Extends(b, p, p.manifest.dialects, c)
    ensures BindsExactly(bb, front + [p], allowUnsigned, c)
  {
    assert forall q :: q in front + [p] <==> q in front || q == p;
    forall d | d in c ensures d in bb || ServedIn(front + [p], d, allowUnsigned) {
      ServedInMore(front, p, d, allowUnsigned);
    }
  }

  lemma UntrustedBinds(bb: Bindings, front: seq<Package>, p: Package, allowUnsigned: bool, b: Bindings)
    requires p.source.Dir? && (forall q :: q in front ==> q.source.Dir?) && !Trusted(p, allowUnsigned)
    requires BindsExactly(bb, front, allowUnsigned, b)
    ensures BindsExactly(bb, front + [p], allowUnsigned, b)
  {
    assert forall q :: q in front + [p] <==> q in front || q == p;
    forall d | d in b ensures d in bb || ServedIn(front + [p], d, allowUnsigned) {
      ServedInMore(front, p, d, allowUnsigned);
    }
  }

  lemma UntrustedFits(bb: Bindings, front: seq<Package>, p: Package, allowUnsigned: bool)
    requires !Trusted(p, allowUnsigned) && Compatible(bb, front, allowUnsigned)
    ensures Compatible(bb, front + [p], allowUnsigned)
  {
    assert forall q :: q in front + [p] <==> q in front || q == p;
  }

  lemma BindOne(bb: Bindings, front: seq<Package>, p: Package, allowUnsigned: bool, b: Bindings)
    requires p.source.Dir? && p !in front && (forall q :: q in front ==> q.source.Dir?)
    requires Compatible(bb, front, allowUnsigned) && BindsExactly(bb, front, allowUnsigned, b)
    requires forall d :: d in bb ==> bb[d].origin == FromBuiltin
    ensures match BindNext(b, p, allowUnsigned)
            case None => !Compatible(bb, front + [p], allowUnsigned)
            case Some(c) =>
              Compatible(bb, front + [p], allowUnsigned) && BindsExactly(bb, front + [p], allowUnsigned, c)
  {
    if Trusted(p, allowUnsigned) {
      ClaimsExactly(bb, b, p, p.manifest.dialects);
      match ClaimAll(b, p, p.manifest.dialects)
      case None => NewcomerClashes(bb, front, p, allowUnsigned, b);
      case Some(c) =>
        NewcomerFits(bb, front, p, allowUnsigned, b);
        NewcomerBound(bb, front, p, allowUnsigned, b, c);
    } else {
      UntrustedFits(bb, front, p, allowUnsigned);
      UntrustedBinds(bb, front, p, allowUnsigned, b);
    }
  }

  /** What binding the directory packages on top of the tier `bb` comes to. */
  ghost predicate Bound(bb: Bindings, dirs: seq<Package>, allowUnsigned: bool, r: Option<Bindings>)
    requires forall p :: p in dirs ==> p.source.Dir?
  {
    match r
    case None => !Compatible(bb, dirs, allowUnsigned)
    case Some(b) => Compatible(bb, dirs, allowUnsigned) && BindsExactly(bb, dirs, allowUnsigned, b)
  }

  function BindAfter(before: Option<Bindings>, p: Package, allowUnsigned: bool): Option<Bindings> {
    match before
    case None => None
    case Some(b) => BindNext(b, p, allowUnsigned)
  }

  lemma BindStep(bb: Bindings, front: seq<Package>, p: Package, allowUnsigned: bool, before: Option<Bindings>)
    requires p.source.Dir? && p !in front && (forall q :: q in front ==> q.source.Dir?)
    requires forall d :: d in bb ==> bb[d].origin == FromBuiltin
    requires Bound(bb, front, allowUnsigned, before)
    ensures Bound(bb, front + [p], allowUnsigned, BindAfter(before, p, allowUnsigned))
  {
    match before
    case None => CompatiblePrefix(bb, front, p, allowUnsigned);
    case Some(b) => BindOne(bb, front, p, allowUnsigned, b);
  }

  lemma BindMore(builtins: seq<Package>, front: seq<Package>, p: Package, allowUnsigned: bool)
    ensures BindDeclared(builtins + (front + [p]), allowUnsigned)
      == BindAfter(BindDeclared(builtins + front, allowUnsigned), p, allowUnsigned)
  {
    var all := builtins + (front + [p]);
    assert all[..|all| - 1] == builtins + front;
  }

  lemma {:induction false} BindOnto(builtins: seq<Package>, bb: Bindings, dirs: seq<Package>, allowUnsigned: bool)
    requires BindDeclared(builtins, allowUnsigned) == Some(bb) && Scanned(dirs)
    requires forall d :: d in bb ==> bb[d].origin == FromBuiltin
    ensures Bound(bb, dirs, allowUnsigned, BindDeclared(builtins + dirs, allowUnsigned))
  {
    if dirs == [] {
      assert builtins + dirs == builtins;
    } else {
      var front, p := dirs[..|dirs| - 1], dirs[|dirs| - 1];
      assert dirs == front + [p] && p in dirs && p !in front;
      BindOnto(builtins, bb, front, allowUnsigned);
      BindMore(builtins, front, p, allowUnsigned);
      BindStep(bb, front, p, allowUnsigned, BindDeclared(builtins + front, allowUnsigned));
    }
  }

  lemma TierOrigin(builtins: seq<Package>, allowUnsigned: bool)
    requires AllBuiltin(builtins)
    ensures match BindDeclared(builtins, allowUnsigned)
            case None => true
            case Some(bb) => forall d :: d in bb ==> bb[d].origin == FromBuiltin
  {
    BuiltinTier(builtins, allowUnsigned);
  }

  lemma BindDeclaredExactly(builtins: seq<Package>, dirs: seq<Package>, allowUnsigned: bool)
    requires AllBuiltin(builtins) && Scanned(dirs)
    ensures match BindDeclared(builtins, allowUnsigned)
            case None => BindDeclared(builtins + dirs, allowUnsigned) == None
            case Some(bb) => Bound(bb, dirs, allowUnsigned, BindDeclared(builtins + dirs, allowUnsigned))
  {
    TierOrigin(builtins, allowUnsigned);
    match BindDeclared(builtins, allowUnsigned)
    case None =>
      assert (builtins + dirs)[..|builtins|] == builtins;
      RefusedSetStays(builtins + dirs, allowUnsigned, |builtins|);
    case Some(bb) => BindOnto(builtins, bb, dirs, allowUnsigned);
  }

  // ----- Merging the explicit entries, exactly -----

  /** The configuration is a map: one entry a dialect. */
  predicate OnePerDialect(entries: seq<Entry>) {
    forall i, j :: 0 <= i < j < |entries| ==> entries[i].dialect != entries[j].dialect
  }

  /** The first package scanned in the entry's directory does not declare the dialect. */
  ghost predicate Denies(packages: seq<Package>, e: Entry) {
    exists i :: 0 <= i < |packages| && FirstInDir(packages, i, e.package) && !Declares(packages[i], e.dialect)
  }

  predicate FirstInDir(packages: seq<Package>, i: nat, name: string)
    requires i < |packages|
  {
    packages[i].source == Dir(name) && forall j :: 0 <= j < i ==> packages[j].source != Dir(name)
  }

  lemma {:induction false} FirstFound(packages: seq<Package>, name: string) returns (i: nat)
    ensures i <= |packages| && forall j :: 0 <= j < i ==> packages[j].source != Dir(name)
    ensures i < |packages| ==> packages[i].source == Dir(name) && FindDir(packages, name) == Some(packages[i])
    ensures i == |packages| ==> FindDir(packages, name) == None
  {
    i := 0;
    if packages != [] && packages[0].source != Dir(name) {
      i := FirstFound(packages[1..], name);
      i := i + 1;
    }
  }

  lemma ContradictedExactly(packages: seq<Package>, e: Entry)
    ensures Contradicted(packages, e) <==> Denies(packages, e)
  {
    var i := FirstFound(packages, e.package);
    if i < |packages| {
      assert FirstInDir(packages, i, e.package);
      forall k | 0 <= k < |packages| && FirstInDir(packages, k, e.package) ensures k == i {
        assert !(k < i) && !(i < k);
      }
    }
  }

  /** What the declared bindings and the scan allow an entry to say. */
  ghost predicate Admissible(packages: seq<Package>, declared: Bindings, e: Entry) {
    if e.dialect in declared then
      || declared[e.dialect].package == e.package
      || (declared[e.dialect].origin == FromBuiltin && e.dialect !in NEWLY_RESERVED)
    else !Denies(packages, e)
  }

  /** The declared bindings unchanged, and each remaining entry bound as the operator wrote it. */
  ghost predicate MergesExactly(declared: Bindings, entries: seq<Entry>, r: Bindings) {
    && (forall d :: d in declared ==> d in r && r[d] == declared[d])
    && (forall d :: d in r ==> d in declared || exists e :: e in entries && e.dialect == d)
    && (forall e :: e in entries ==> e.dialect in r)
    && (forall e :: e in entries && e.dialect !in declared ==>
          r[e.dialect] == Binding(e.package, Dir(e.package), Configured))
  }

  lemma MergeNext(packages: seq<Package>, declared: Bindings, front: seq<Entry>, e: Entry, b: Bindings)
    requires forall f :: f in front ==> f.dialect != e.dialect
    requires MergesExactly(declared, front, b)
    ensures match MergeOne(packages, b, e)
            case None => !Admissible(packages, declared, e)
            case Some(r) => Admissible(packages, declared, e) && MergesExactly(declared, front + [e], r)
  {
    ContradictedExactly(packages, e);
    assert forall f :: f in front + [e] <==> f in front || f == e;
    assert e.dialect in b <==> e.dialect in declared;
    if MergeOne(packages, b, e).Some? {
      var r := MergeOne(packages, b, e).value;
      forall d | d in r ensures d in declared || exists f :: f in front + [e] && f.dialect == d {
        if d in b && d !in declared {
          var f :| f in front && f.dialect == d;
          assert f in front + [e];
        } else if d !in b {
          assert e in front + [e];
        }
      }
    }
  }

  lemma {:induction false} MergeExplicitExactly(packages: seq<Package>, declared: Bindings, entries: seq<Entry>)
    requires OnePerDialect(entries)
    ensures match MergeExplicit(packages, declared, entries)
            case None => exists e :: e in entries && !Admissible(packages, declared, e)
            case Some(r) =>
              && (forall e :: e in entries ==> Admissible(packages, declared, e))
              && MergesExactly(declared, entries, r)
  {
    if entries != [] {
      var front, e := entries[..|entries| - 1], entries[|entries| - 1];
      MergeExplicitExactly(packages, declared, front);
      assert entries == front + [e];
      assert forall f :: f in entries <==> f in front || f == e;
      if MergeExplicit(packages, declared, front).Some? {
        MergeNext(packages, declared, front, e, MergeExplicit(packages, declared, front).value);
      }
    }
  }

  // ----- Main results -----

  lemma SameBindings(bb: Bindings, dirs: seq<Package>, others: seq<Package>, allowUnsigned: bool,
      b: Bindings, c: Bindings)
    requires Scanned(dirs) && (forall p :: p in dirs <==> p in others)
    requires BindsExactly(bb, dirs, allowUnsigned, b) && BindsExactly(bb, others, allowUnsigned, c)
    ensures b == c
  {
    forall d | d in b ensures d in c && c[d] == b[d] {
      if d !in bb {
        assert ServedIn(dirs, d, allowUnsigned);
      }
    }
    forall d | d in c ensures d in b {
      if d !in bb {
        assert ServedIn(others, d, allowUnsigned);
      }
    }
  }

  lemma {:induction false} FindDirFinds(packages: seq<Package>, name: string)
    ensures match FindDir(packages, name)
            case None => forall p :: p in packages ==> p.source != Dir(name)
            case Some(found) => found in packages && found.source == Dir(name)
  {
    if packages != [] {
      FindDirFinds(packages[1..], name);
    }
  }

  lemma FoundInAnyOrder(builtins: seq<Package>, dirs: seq<Package>, others: seq<Package>, name: string)
    requires AllBuiltin(builtins) && Scanned(dirs) && multiset(dirs) == multiset(others)
    ensures FindDir(builtins + dirs, name) == FindDir(builtins + others, name)
  {
    FindDirFinds(builtins + dirs, name);
    FindDirFinds(builtins + others, name);
    SameMultisetMembers(dirs, others);
    assert forall p :: p in builtins + dirs <==> p in builtins || p in dirs;
    assert forall p :: p in builtins + others <==> p in builtins || p in others;
  }

  lemma {:induction false} MergeIgnoresScanOrder(packages: seq<Package>, others: seq<Package>, b: Bindings,
      entries: seq<Entry>)
    requires forall name :: FindDir(packages, name) == FindDir(others, name)
    ensures MergeExplicit(packages, b, entries) == MergeExplicit(others, b, entries)
  {
    if entries != [] {
      MergeIgnoresScanOrder(packages, others, b, entries[..|entries| - 1]);
    }
  }

  /** Whatever order the directories are scanned in, the registry is refused or comes out the same. */
  lemma ScanOrderIrrelevant(builtins: seq<Package>, dirs: seq<Package>, others: seq<Package>,
      allowUnsigned: bool, entries: seq<Entry>)
    requires AllBuiltin(builtins) && Scanned(dirs) && Scanned(others) && multiset(dirs) == multiset(others)
    ensures Registry(builtins + dirs, allowUnsigned, entries) == Registry(builtins + others, allowUnsigned, entries)
  {
    SameMultisetMembers(dirs, others);
    BindDeclaredExactly(builtins, dirs, allowUnsigned);
    BindDeclaredExactly(builtins, others, allowUnsigned);
    if BindDeclared(builtins, allowUnsigned).Some? {
      var bb := BindDeclared(builtins, allowUnsigned).value;
      assert Compatible(bb, dirs, allowUnsigned) == Compatible(bb, others, allowUnsigned);
      if BindDeclared(builtins + dirs, allowUnsigned).Some? {
        var b := BindDeclared(builtins + dirs, allowUnsigned).value;
        SameBindings(bb, dirs, others, allowUnsigned, b, BindDeclared(builtins + others, allowUnsigned).value);
        forall name ensures FindDir(builtins + dirs, name) == FindDir(builtins + others, name) {
          FoundInAnyOrder(builtins, dirs, others, name);
        }
        MergeIgnoresScanOrder(builtins + dirs, builtins + others, b, entries);
      }
    }
  }

  /** A dialect the builtin tier serves keeps its builtin, whatever is installed or configured. */
  lemma BuiltinNeverReplaced(builtins: seq<Package>, dirs: seq<Package>, allowUnsigned: bool, entries: seq<Entry>,
      dialect: string)
    requires AllBuiltin(builtins) && Scanned(dirs) && OnePerDialect(entries)
    requires exists p :: p in builtins && Serves(p, dialect, allowUnsigned)
    ensures match Registry(builtins + dirs, allowUnsigned, entries)
            case None => true
            case Some(r) => dialect in r && FirstServes(builtins, allowUnsigned, dialect, r[dialect])
  {
    BuiltinTier(builtins, allowUnsigned);
    BindDeclaredExactly(builtins, dirs, allowUnsigned);
    if BindDeclared(builtins + dirs, allowUnsigned).Some? {
      MergeExplicitExactly(builtins + dirs, BindDeclared(builtins + dirs, allowUnsigned).value, entries);
    }
  }

  /** Who vouches for a binding: the builtin tier, a receipt or `allow_unsigned`, or the operator. */
  ghost predicate VouchedFor(builtins: seq<Package>, dirs: seq<Package>, allowUnsigned: bool, entries: seq<Entry>,
    d: string, b: Binding)
    requires forall p :: p in dirs ==> p.source.Dir?
  {
    match b.origin
    case FromBuiltin => FirstServes(builtins, allowUnsigned, d, b)
    case Discovered => exists p :: p in dirs && Serves(p, d, allowUnsigned) && b == DirBinding(p)
    case Configured =>
      && b == Binding(b.package, Dir(b.package), Configured)
      && Entry(d, b.package) in entries
      && forall p :: p in dirs && p.source == b.source ==> Declares(p, d)
  }

  lemma DeclaredIsVouchedFor(builtins: seq<Package>, bb: Bindings, dirs: seq<Package>, allowUnsigned: bool,
      entries: seq<Entry>, b: Bindings, d: string)
    requires FirstComeFirstServed(builtins, allowUnsigned, bb) && forall p :: p in dirs ==> p.source.Dir?
    requires BindsExactly(bb, dirs, allowUnsigned, b) && d in b
    ensures VouchedFor(builtins, dirs, allowUnsigned, entries, d, b[d])
  {
    if d !in bb {
      var p :| p in dirs && Serves(p, d, allowUnsigned);
      assert b[d] == DirBinding(p);
    }
  }

  lemma ConfiguredIsVouchedFor(builtins: seq<Package>, dirs: seq<Package>, allowUnsigned: bool, entries: seq<Entry>,
      e: Entry)
    requires AllBuiltin(builtins) && Scanned(dirs) && e in entries && !Denies(builtins + dirs, e)
    ensures VouchedFor(builtins, dirs, allowUnsigned, entries, e.dialect, Binding(e.package, Dir(e.package), Configured))
  {
    ContradictedExactly(builtins + dirs, e);
    FindDirFinds(builtins + dirs, e.package);
    OnlyOneInDirectory(builtins, dirs, e.package);
  }

  lemma EveryBindingIsVouchedFor(builtins: seq<Package>, dirs: seq<Package>, allowUnsigned: bool,
      entries: seq<Entry>, d: string)
    requires AllBuiltin(builtins) && Scanned(dirs) && OnePerDialect(entries)
    ensures match Registry(builtins + dirs, allowUnsigned, entries)
            case None => true
            case Some(r) => d in r ==> VouchedFor(builtins, dirs, allowUnsigned, entries, d, r[d])
  {
    BuiltinTier(builtins, allowUnsigned);
    BindDeclaredExactly(builtins, dirs, allowUnsigned);
    var packages := builtins + dirs;
    var declared := BindDeclared(packages, allowUnsigned);
    if declared.Some? {
      MergeExplicitExactly(packages, declared.value, entries);
      var registry := MergeExplicit(packages, declared.value, entries);
      if registry.Some? && d in registry.value {
        if d in declared.value {
          DeclaredIsVouchedFor(builtins, BindDeclared(builtins, allowUnsigned).value, dirs, allowUnsigned, entries,
                               declared.value, d);
        } else {
          var e :| e in entries && e.dialect == d;
          assert Admissible(packages, declared.value, e);
          ConfiguredIsVouchedFor(builtins, dirs, allowUnsigned, entries, e);
        }
      }
    }
  }

  lemma OnlyOneInDirectory(builtins: seq<Package>, dirs: seq<Package>, name: string)
    requires AllBuiltin(builtins) && Scanned(dirs)
    ensures forall p, q :: p in builtins + dirs && q in builtins + dirs && p.source == Dir(name) == q.source ==> p == q
    ensures forall p :: p in dirs ==> p in builtins + dirs
  {
  }

  lemma SameTier(builtins: seq<Package>, allowUnsigned: bool, bb: Bindings, cc: Bindings)
    requires FirstComeFirstServed(builtins, allowUnsigned, bb) && FirstComeFirstServed(builtins, allowUnsigned, cc)
    ensures bb == cc
  {
    forall d | d in bb ensures d in cc && cc[d] == bb[d] {
      SameServer(builtins, allowUnsigned, bb, cc, d);
    }
    forall d | d in cc ensures d in bb {
      SameServer(builtins, allowUnsigned, cc, bb, d);
    }
  }

  lemma SameServer(builtins: seq<Package>, allowUnsigned: bool, bb: Bindings, cc: Bindings, d: string)
    requires FirstComeFirstServed(builtins, allowUnsigned, bb) && FirstComeFirstServed(builtins, allowUnsigned, cc)
    requires d in bb
    ensures d in cc && cc[d] == bb[d]
  {
    assert FirstServes(builtins, allowUnsigned, d, bb[d]);
    var i :| 0 <= i < |builtins| && Serves(builtins[i], d, allowUnsigned) && bb[d] == BuiltinBinding(builtins[i])
      && forall j :: 0 <= j < i ==> !Serves(builtins[j], d, allowUnsigned);
    assert builtins[i] in builtins;
    assert FirstServes(builtins, allowUnsigned, d, cc[d]);
    var k :| 0 <= k < |builtins| && Serves(builtins[k], d, allowUnsigned) && cc[d] == BuiltinBinding(builtins[k])
      && forall j :: 0 <= j < k ==> !Serves(builtins[j], d, allowUnsigned);
    assert i == k;
  }

  /** The tier's bindings, what is declared on top of them, and entries that fit both. */
  ghost predicate Fitting(builtins: seq<Package>, dirs: seq<Package>, allowUnsigned: bool, entries: seq<Entry>,
    bb: Bindings, b: Bindings)
    requires forall p :: p in dirs ==> p.source.Dir?
  {
    && FirstComeFirstServed(builtins, allowUnsigned, bb)
    && Compatible(bb, dirs, allowUnsigned) && BindsExactly(bb, dirs, allowUnsigned, b)
    && forall e :: e in entries ==> Admissible(builtins + dirs, b, e)
  }

  /** Exactly when the registry can be built: the builtin tier agrees with itself, every trusted
      package sits beside it, and no explicit entry contradicts what is declared. */
  lemma RegistryAccepts(builtins: seq<Package>, dirs: seq<Package>, allowUnsigned: bool, entries: seq<Entry>)
    requires AllBuiltin(builtins) && Scanned(dirs) && OnePerDialect(entries)
    ensures Registry(builtins + dirs, allowUnsigned, entries).Some? <==>
      TierAgrees(builtins, allowUnsigned)
      && exists bb, b :: Fitting(builtins, dirs, allowUnsigned, entries, bb, b)
  {
    BuiltinTier(builtins, allowUnsigned);
    BindDeclaredExactly(builtins, dirs, allowUnsigned);
    var declared := BindDeclared(builtins + dirs, allowUnsigned);
    if BindDeclared(builtins, allowUnsigned).Some? {
      var tier := BindDeclared(builtins, allowUnsigned).value;
      forall bb, b | Fitting(builtins, dirs, allowUnsigned, entries, bb, b)
        ensures bb == tier && declared == Some(b)
      {
        SameTier(builtins, allowUnsigned, bb, tier);
        if declared.Some? {
          SameBindings(bb, dirs, dirs, allowUnsigned, b, declared.value);
        }
      }
      if declared.Some? {
        MergeExplicitExactly(builtins + dirs, declared.value, entries);
        if Registry(builtins + dirs, allowUnsigned, entries).Some? {
          assert Fitting(builtins, dirs, allowUnsigned, entries, tier, declared.value);
        }
      }
    }
  }
}
