/** Whole-path guarantees the single-import layer rules give over any import graph. */
module ImportGraph {
  import opened ImportRules

  // ---------------------------------------------------------------------
  // Paths
  // ---------------------------------------------------------------------

  /** A scanned file at `a` has an import that resolves to `b`. */
  ghost predicate Edge(files: seq<SourceFile>, a: string, b: string) {
    exists file, site :: file in files && site in file.sites && file.path == a
                         && ImportOf(a, site).Some? && ImportOf(a, site).value.File? && ImportOf(a, site).value.to == b
  }

  ghost predicate IsPath(files: seq<SourceFile>, path: seq<string>) {
    path != [] && forall i :: 0 <= i < |path| - 1 ==> Edge(files, path[i], path[i + 1])
  }

  ghost predicate In(contexts: Contexts, path: string, context: string, layers: seq<Layer>) {
    var place := PlaceOf(contexts, path);
    place.Some? && place.value.context == context && place.value.layer in layers
  }

  ghost predicate Inside(contexts: Contexts, path: string, context: string) {
    PlaceOf(contexts, path).Some? && PlaceOf(contexts, path).value.context == context
  }

  /** No import of a scanned file is rejected by `rule`. */
  ghost predicate Obeyed(contexts: Contexts, files: seq<SourceFile>, rule: Rule) {
    forall file, site :: file in files && site in file.sites ==>
      ImportOf(file.path, site).Some? ==> !Rejects(contexts, rule, ImportOf(file.path, site).value)
  }

  lemma CleanAt(contexts: Contexts, files: seq<SourceFile>, rules: seq<Rule>, file: SourceFile, site: ImportSite)
    requires Clean(contexts, files, rules) && file in files && site in file.sites
    ensures SiteIsClean(contexts, file.path, site, rules)
  {
    var f :| 0 <= f < |files| && files[f] == file;
    var i :| 0 <= i < |file.sites| && file.sites[i] == site;
    assert FileIsClean(contexts, files[f].path, files[f].sites, rules);
  }

  lemma EmptyReportObeys(contexts: Contexts, files: seq<SourceFile>, rule: Rule)
    requires Violations(contexts, files, LAYER_RULES) == []
    ensures Obeyed(contexts, files, rule)
  {
    EmptyReportIffClean(contexts, files, LAYER_RULES);
    assert rule in LAYER_RULES by {
      assert LAYER_RULES[0] == DomainImportsDomain && LAYER_RULES[1] == ApplicationImportsInward
          && LAYER_RULES[2] == InfrastructureImportsInward && LAYER_RULES[3] == EnterThroughIndex
          && LAYER_RULES[4] == LiteralImportsInContexts;
    }
    forall file, site | file in files && site in file.sites && ImportOf(file.path, site).Some?
      ensures !Rejects(contexts, rule, ImportOf(file.path, site).value)
    {
      CleanAt(contexts, files, LAYER_RULES, file, site);
    }
  }

  /** A rule broken by a scanned import is broken by an edge, whose two ends are a path. */
  lemma BrokenByEdge(contexts: Contexts, files: seq<SourceFile>, rule: Rule) returns (imp: Import)
    requires !Obeyed(contexts, files, rule) && !rule.LiteralImportsInContexts?
    ensures imp.File? && Rejects(contexts, rule, imp) && IsPath(files, [imp.from, imp.to])
  {
    var file, site :| file in files && site in file.sites
                      && ImportOf(file.path, site).Some? && Rejects(contexts, rule, ImportOf(file.path, site).value);
    imp := ImportOf(file.path, site).value;
    assert Edge(files, imp.from, imp.to);
  }

  // ---------------------------------------------------------------------
  // Inward rules
  // ---------------------------------------------------------------------

  /** From a file in `layer` of a context, a path stays within `reach` of that context. */
  ghost predicate PathStays(contexts: Contexts, path: seq<string>, layer: Layer, reach: seq<Layer>) {
    path != [] &&
    forall context :: In(contexts, path[0], context, [layer]) ==>
      forall i :: 0 <= i < |path| ==> In(contexts, path[i], context, reach)
  }

  lemma {:induction false} DomainPathStays(contexts: Contexts, files: seq<SourceFile>, path: seq<string>,
                                           context: string, i: nat)
    requires Obeyed(contexts, files, DomainImportsDomain)
    requires IsPath(files, path) && i < |path| && In(contexts, path[0], context, [Domain])
    ensures In(contexts, path[i], context, [Domain])
  {
    if i > 0 {
      DomainPathStays(contexts, files, path, context, i - 1);
      assert Edge(files, path[i - 1], path[i]);
    }
  }

  /**
   The domain rule on single imports is exactly the guarantee that the domain reaches only its own
   domain, at any distance.
   */
  lemma DomainReachesOnlyDomain(contexts: Contexts, files: seq<SourceFile>)
    ensures Obeyed(contexts, files, DomainImportsDomain) <==>
            forall path :: IsPath(files, path) ==> PathStays(contexts, path, Domain, [Domain])
  {
    if Obeyed(contexts, files, DomainImportsDomain) {
      forall path | IsPath(files, path)
        ensures PathStays(contexts, path, Domain, [Domain])
      {
        forall context, i | In(contexts, path[0], context, [Domain]) && 0 <= i < |path|
          ensures In(contexts, path[i], context, [Domain])
        {
          DomainPathStays(contexts, files, path, context, i);
        }
      }
    } else {
      var imp := BrokenByEdge(contexts, files, DomainImportsDomain);
      var path := [imp.from, imp.to];
      var context := PlaceOf(contexts, imp.from).value.context;
      assert In(contexts, path[0], context, [Domain]) && !In(contexts, path[1], context, [Domain]);
      assert !PathStays(contexts, path, Domain, [Domain]);
    }
  }

  lemma {:induction false} InnerPathStays(contexts: Contexts, files: seq<SourceFile>, path: seq<string>,
                                          context: string, i: nat)
    requires Obeyed(contexts, files, DomainImportsDomain) && Obeyed(contexts, files, ApplicationImportsInward)
    requires IsPath(files, path) && i < |path| && In(contexts, path[0], context, [Domain, Application])
    ensures In(contexts, path[i], context, [Domain, Application])
  {
    if i > 0 {
      InnerPathStays(contexts, files, path, context, i - 1);
      assert Edge(files, path[i - 1], path[i]);
    }
  }

  /** Given the domain rule, the application rule is exactly that use cases reach only their own model and use cases. */
  lemma ApplicationReachesOnlyInward(contexts: Contexts, files: seq<SourceFile>)
    requires Obeyed(contexts, files, DomainImportsDomain)
    ensures Obeyed(contexts, files, ApplicationImportsInward) <==>
            forall path :: IsPath(files, path) ==> PathStays(contexts, path, Application, [Domain, Application])
  {
    if Obeyed(contexts, files, ApplicationImportsInward) {
      forall path | IsPath(files, path)
        ensures PathStays(contexts, path, Application, [Domain, Application])
      {
        forall context, i | In(contexts, path[0], context, [Application]) && 0 <= i < |path|
          ensures In(contexts, path[i], context, [Domain, Application])
        {
          InnerPathStays(contexts, files, path, context, i);
        }
      }
    } else {
      var imp := BrokenByEdge(contexts, files, ApplicationImportsInward);
      var path := [imp.from, imp.to];
      var context := PlaceOf(contexts, imp.from).value.context;
      assert In(contexts, path[0], context, [Application]) && !In(contexts, path[1], context, [Domain, Application]);
      assert !PathStays(contexts, path, Application, [Domain, Application]);
    }
  }

  /** An import cycle through a domain or application file holds nothing but its context's domain and application. */
  lemma CyclesStayInward(contexts: Contexts, files: seq<SourceFile>, cycle: seq<string>, context: string, i: nat,
                         j: nat)
    requires Violations(contexts, files, LAYER_RULES) == []
    requires IsPath(files, cycle) && cycle[0] == cycle[|cycle| - 1]
    requires i < |cycle| && j < |cycle| && In(contexts, cycle[i], context, [Domain, Application])
    ensures In(contexts, cycle[j], context, [Domain, Application])
  {
    EmptyReportObeys(contexts, files, DomainImportsDomain);
    EmptyReportObeys(contexts, files, ApplicationImportsInward);
    var rest := cycle[i..];
    assert forall k :: 0 <= k < |rest| ==> rest[k] == cycle[i + k];
    InnerPathStays(contexts, files, rest, context, |rest| - 1);
    InnerPathStays(contexts, files, cycle, context, j);
  }

  // ---------------------------------------------------------------------
  // Entering a context
  // ---------------------------------------------------------------------

  /** Any path from outside a context into it arrives at that context's index first. */
  ghost predicate EntersThroughIndex(contexts: Contexts, path: seq<string>) {
    path != [] && forall context, k: nat :: FirstInside(contexts, path, context, k) ==>
      In(contexts, path[k], context, [Index])
  }

  /** A path that starts outside a context reaches it first at `k`. */
  ghost predicate FirstInside(contexts: Contexts, path: seq<string>, context: string, k: nat) {
    && 0 < k < |path| && Inside(contexts, path[k], context)
    && forall i :: 0 <= i < k ==> !Inside(contexts, path[i], context)
  }

  /** The index rule on single imports is exactly the guarantee that every path enters a context through its index. */
  lemma PathsEnterThroughIndex(contexts: Contexts, files: seq<SourceFile>)
    ensures Obeyed(contexts, files, EnterThroughIndex) <==>
            forall path :: IsPath(files, path) ==> EntersThroughIndex(contexts, path)
  {
    if Obeyed(contexts, files, EnterThroughIndex) {
      forall path | IsPath(files, path)
        ensures EntersThroughIndex(contexts, path)
      {
        forall context, k: nat | FirstInside(contexts, path, context, k)
          ensures In(contexts, path[k], context, [Index])
        {
          assert Edge(files, path[k - 1], path[k]);
          assert !Inside(contexts, path[k - 1], context);
        }
      }
    } else {
      var imp := BrokenByEdge(contexts, files, EnterThroughIndex);
      var path := [imp.from, imp.to];
      var context := PlaceOf(contexts, imp.to).value.context;
      assert FirstInside(contexts, path, context, 1);
      assert !In(contexts, path[1], context, [Index]);
      assert !EntersThroughIndex(contexts, path);
    }
  }

  // ---------------------------------------------------------------------
  // Adapters and what wires them
  // ---------------------------------------------------------------------

  /** A path from an adapter of a context meets that context's use cases or index first at `k`. */
  ghost predicate FirstWiring(contexts: Contexts, path: seq<string>, context: string, k: nat) {
    && 0 < k < |path| && In(contexts, path[0], context, [Infrastructure])
    && In(contexts, path[k], context, [Application, Index])
    && forall i :: 0 <= i < k ==> !In(contexts, path[i], context, [Application, Index])
  }

  /**
   Whatever leads an adapter to its own wiring is a file of no layer in its context, or lies
   outside and enters by the index.
   */
  ghost predicate WiringIsIndirect(contexts: Contexts, path: seq<string>) {
    path != [] && forall context, k: nat :: FirstWiring(contexts, path, context, k) ==>
      || In(contexts, path[k - 1], context, [OtherLayer])
      || (!Inside(contexts, path[k - 1], context) && In(contexts, path[k], context, [Index]))
  }

  /**
   The infrastructure rule judges direct imports alone, and given the domain and index rules it is
   exactly this: a path from an adapter to its own use cases or index first leaves the layers.
   */
  lemma AdaptersReachWiringIndirectly(contexts: Contexts, files: seq<SourceFile>)
    requires Obeyed(contexts, files, DomainImportsDomain) && Obeyed(contexts, files, EnterThroughIndex)
    ensures Obeyed(contexts, files, InfrastructureImportsInward) <==>
            forall path :: IsPath(files, path) ==> WiringIsIndirect(contexts, path)
  {
    if Obeyed(contexts, files, InfrastructureImportsInward) {
      forall path | IsPath(files, path)
        ensures WiringIsIndirect(contexts, path)
      {
        forall context, k: nat | FirstWiring(contexts, path, context, k)
          ensures || In(contexts, path[k - 1], context, [OtherLayer])
                  || (!Inside(contexts, path[k - 1], context) && In(contexts, path[k], context, [Index]))
        {
          assert Edge(files, path[k - 1], path[k]);
          assert !In(contexts, path[k - 1], context, [Application, Index]);
          assert !In(contexts, path[k - 1], context, [Domain]);
          assert !In(contexts, path[k - 1], context, [Infrastructure]);
        }
      }
    } else {
      var imp := BrokenByEdge(contexts, files, InfrastructureImportsInward);
      var path := [imp.from, imp.to];
      var context := PlaceOf(contexts, imp.from).value.context;
      assert path[0] == imp.from && path[1] == imp.to;
      assert FirstWiring(contexts, path, context, 1);
      assert !WiringIsIndirect(contexts, path);
    }
  }

  /** The rule on literals holds exactly when no scanned file of a context has an import it does not spell out. */
  lemma LiteralsInContexts(contexts: Contexts, files: seq<SourceFile>)
    ensures Obeyed(contexts, files, LiteralImportsInContexts) <==>
            forall file, site :: file in files && site in file.sites && PlaceOf(contexts, file.path).Some? ==>
              site.specifier.Some?
  {
  }

  /**
   With an empty report no import made inside a context escapes judgement: each names a package or
   a resolved file.
   */
  lemma EveryInnerImportIsJudged(contexts: Contexts, files: seq<SourceFile>, file: SourceFile, site: ImportSite)
    requires Violations(contexts, files, LAYER_RULES) == []
    requires file in files && site in file.sites && PlaceOf(contexts, file.path).Some?
    ensures ImportOf(file.path, site).Some?
    ensures ImportOf(file.path, site).value.Package? ||
            (ImportOf(file.path, site).value.File? && Edge(files, file.path, ImportOf(file.path, site).value.to))
  {
    EmptyReportIffClean(contexts, files, LAYER_RULES);
    EmptyReportObeys(contexts, files, LiteralImportsInContexts);
    CleanAt(contexts, files, LAYER_RULES, file, site);
  }

  /** What an empty report says of a whole source tree, at any distance. */
  lemma EmptyReportGuarantees(contexts: Contexts, files: seq<SourceFile>, path: seq<string>)
    requires Violations(contexts, files, LAYER_RULES) == [] && IsPath(files, path)
    ensures PathStays(contexts, path, Domain, [Domain])
    ensures PathStays(contexts, path, Application, [Domain, Application])
    ensures EntersThroughIndex(contexts, path)
    ensures WiringIsIndirect(contexts, path)
  {
    EmptyReportObeys(contexts, files, InfrastructureImportsInward);
    EmptyReportObeys(contexts, files, DomainImportsDomain);
    EmptyReportObeys(contexts, files, ApplicationImportsInward);
    EmptyReportObeys(contexts, files, EnterThroughIndex);
    DomainReachesOnlyDomain(contexts, files);
    ApplicationReachesOnlyInward(contexts, files);
    PathsEnterThroughIndex(contexts, files);
    AdaptersReachWiringIndirectly(contexts, files);
  }
}
