/** The layer rules and the engine that applies them (lint/rules/layers.ts, lint/import-rules.ts). */
module ImportRules {
  import opened Wrappers
  import opened Text

  // ---------------------------------------------------------------------
  // Places
  // ---------------------------------------------------------------------

  datatype Layer = Domain | Application | Infrastructure | Index | OtherLayer

  datatype Place = Place(context: string, layer: Layer)

  function LayerOf(name: string): Layer {
    if name == "domain" then Domain
    else if name == "application" then Application
    else if name == "infrastructure" then Infrastructure
    else if name == "index.ts" || name == "index.tsx" then Index
    else OtherLayer
  }

  /** The contexts laid out in layers; the repository lists "agent" alone, and the properties below hold of any list. */
  type Contexts = seq<string>

  function PlaceOf(contexts: Contexts, path: string): Option<Place> {
    var parts := Split(path, '/');
    if parts[0] !in contexts || |parts| < 2 then None else Some(Place(parts[0], LayerOf(parts[1])))
  }

  /** The layer a name under a context stands for, name by name. */
  ghost predicate Names(layer: Layer, name: string) {
    match layer
    case Domain => name == "domain"
    case Application => name == "application"
    case Infrastructure => name == "infrastructure"
    case Index => name == "index.ts" || name == "index.tsx"
    case OtherLayer => name !in {"domain", "application", "infrastructure", "index.ts", "index.tsx"}
  }

  /** Without a slash a path names no place. */
  lemma PlaceOfOneStep(contexts: Contexts, context: string)
    requires '/' !in context
    ensures PlaceOf(contexts, context) == None
  {
    SplitSingle(context, '/');
  }

  lemma PlaceOfParts(contexts: Contexts, path: string, parts: seq<string>, layer: Layer)
    requires parts == Split(path, '/') && |parts| >= 2 && Names(layer, parts[1])
    ensures PlaceOf(contexts, path) == if parts[0] in contexts then Some(Place(parts[0], layer)) else None
  {
    assert layer == LayerOf(parts[1]);
  }

  /** A path has a place when its first step is a context; the second step alone names the layer. */
  lemma PlaceOfPath(contexts: Contexts, context: string, name: string, rest: string, layer: Layer)
    requires '/' !in context && '/' !in name && Names(layer, name)
    ensures var place := if context in contexts then Some(Place(context, layer)) else None;
            && PlaceOf(contexts, context + ['/'] + name) == place
            && PlaceOf(contexts, context + ['/'] + (name + ['/'] + rest)) == place
  {
    SplitSingle(name, '/');
    SplitFirst(context, '/', name);
    PlaceOfParts(contexts, context + ['/'] + name, [context, name], layer);
    SplitFirst(name, '/', rest);
    SplitFirst(context, '/', name + ['/'] + rest);
    PlaceOfParts(contexts, context + ['/'] + (name + ['/'] + rest), [context] + ([name] + Split(rest, '/')), layer);
  }

  // ---------------------------------------------------------------------
  // Rules
  // ---------------------------------------------------------------------

  datatype Import =
    | File(from: string, specifier: string, to: string)
    | Package(from: string, specifier: string)
    | Computed(from: string)

  /** Whether a file import made in `layer` ends in an `allowed` layer of its own context; None for any other import. */
  function StaysWithin(contexts: Contexts, imp: Import, layer: Layer, allowed: seq<Layer>): Option<bool> {
    if !imp.File? then None
    else
      var from := PlaceOf(contexts, imp.from);
      if from.None? || from.value.layer != layer then None
      else
        var to := PlaceOf(contexts, imp.to);
        Some(to.Some? && to.value.context == from.value.context && to.value.layer in allowed)
  }

  datatype Rule =
    | DomainImportsDomain
    | ApplicationImportsInward
    | InfrastructureImportsInward
    | EnterThroughIndex
    | LiteralImportsInContexts

  const LAYER_RULES: seq<Rule> :=
    [DomainImportsDomain, ApplicationImportsInward, InfrastructureImportsInward,
     EnterThroughIndex, LiteralImportsInContexts]

  predicate Rejects(contexts: Contexts, rule: Rule, imp: Import) {
    match rule
    case DomainImportsDomain => StaysWithin(contexts, imp, Domain, [Domain]) == Some(false)
    case ApplicationImportsInward => StaysWithin(contexts, imp, Application, [Domain, Application]) == Some(false)
    case InfrastructureImportsInward => StaysWithin(contexts, imp, Infrastructure, [Application, Index]) == Some(true)
    case EnterThroughIndex =>
      if !imp.File? then false
      else
        var to := PlaceOf(contexts, imp.to);
        if to.None? || to.value.layer.Index? then false
        else
          var from := PlaceOf(contexts, imp.from);
          from.None? || from.value.context != to.value.context
    case LiteralImportsInContexts => imp.Computed? && PlaceOf(contexts, imp.from).Some?
  }

  // ---------------------------------------------------------------------
  // The engine
  // ---------------------------------------------------------------------

  /** One import statement; `resolved` is what the resolver answers for a path specifier. */
  datatype ImportSite = ImportSite(specifier: Option<string>, line: nat, resolved: Option<string>)

  datatype SourceFile = SourceFile(path: string, sites: seq<ImportSite>)

  datatype Verdict = Unresolved | Broken(rule: Rule)

  datatype Violation = Violation(file: string, line: nat, verdict: Verdict)

  predicate IsPathSpecifier(specifier: string) {
    "." <= specifier || "/" <= specifier || "@/" <= specifier
  }

  /** A specifier names a path when it starts with ".", "/" or "@/", and a package otherwise. */
  lemma PathSpecifiers(specifier: string)
    ensures IsPathSpecifier(specifier) <==>
            || (|specifier| >= 1 && (specifier[0] == '.' || specifier[0] == '/'))
            || (|specifier| >= 2 && specifier[0] == '@' && specifier[1] == '/')
  {
    assert specifier != [] ==> specifier[..1] == [specifier[0]];
    assert |specifier| >= 2 ==> specifier[..2] == [specifier[0], specifier[1]];
  }

  /** The import a site makes, or None for a path that does not resolve. */
  function ImportOf(from: string, site: ImportSite): Option<Import> {
    if site.specifier.None? then Some(Computed(from))
    else if !IsPathSpecifier(site.specifier.value) then Some(Package(from, site.specifier.value))
    else if site.resolved.None? then None
    else Some(File(from, site.specifier.value, site.resolved.value))
  }

  function RuleViolations(contexts: Contexts, from: string, line: nat, imp: Import, rules: seq<Rule>): seq<Violation> {
    if rules == [] then []
    else
      RuleViolations(contexts, from, line, imp, rules[..|rules| - 1])
      + (if Rejects(contexts, rules[|rules| - 1], imp) then [Violation(from, line, Broken(rules[|rules| - 1]))] else [])
  }

  function SiteViolations(contexts: Contexts, from: string, site: ImportSite, rules: seq<Rule>): seq<Violation> {
    var imp := ImportOf(from, site);
    if imp.None? then [Violation(from, site.line, Unresolved)]
    else RuleViolations(contexts, from, site.line, imp.value, rules)
  }

  function FileViolations(contexts: Contexts, from: string, sites: seq<ImportSite>, rules: seq<Rule>): seq<Violation> {
    if sites == [] then []
    else
      FileViolations(contexts, from, sites[..|sites| - 1], rules)
      + SiteViolations(contexts, from, sites[|sites| - 1], rules)
  }

  function Violations(contexts: Contexts, files: seq<SourceFile>, rules: seq<Rule>): seq<Violation> {
    if files == [] then []
    else
      Violations(contexts, files[..|files| - 1], rules)
      + FileViolations(contexts, files[|files| - 1].path, files[|files| - 1].sites, rules)
  }

  method RulesBroken(contexts: Contexts, from: string, line: nat, imp: Import, rules: seq<Rule>)
    returns (violations: seq<Violation>)
    ensures violations == RuleViolations(contexts, from, line, imp, rules)
  {
    violations := [];
    for r := 0 to |rules|
      invariant violations == RuleViolations(contexts, from, line, imp, rules[..r])
    {
      assert rules[..r + 1][..r] == rules[..r];
      if !Rejects(contexts, rules[r], imp) {
        continue;
      }
      violations := violations + [Violation(from, line, Broken(rules[r]))];
    }
    assert rules[..|rules|] == rules;
  }

  method CheckFile(contexts: Contexts, from: string, sites: seq<ImportSite>, rules: seq<Rule>)
    returns (violations: seq<Violation>)
    ensures violations == FileViolations(contexts, from, sites, rules)
  {
    violations := [];
    for i := 0 to |sites|
      invariant violations == FileViolations(contexts, from, sites[..i], rules)
    {
      assert sites[..i + 1][..i] == sites[..i];
      var imp := ImportOf(from, sites[i]);
      if imp.None? {
        violations := violations + [Violation(from, sites[i].line, Unresolved)];
        continue;
      }
      var broken := RulesBroken(contexts, from, sites[i].line, imp.value, rules);
      violations := violations + broken;
    }
    assert sites[..|sites|] == sites;
  }

  /** One report entry per broken rule and per unresolved path, in scan order. */
  method CheckImports(contexts: Contexts, files: seq<SourceFile>, rules: seq<Rule>) returns (violations: seq<Violation>)
    ensures violations == Violations(contexts, files, rules)
  {
    violations := [];
    for f := 0 to |files|
      invariant violations == Violations(contexts, files[..f], rules)
    {
      assert files[..f + 1][..f] == files[..f];
      var found := CheckFile(contexts, files[f].path, files[f].sites, rules);
      violations := violations + found;
    }
    assert files[..|files|] == files;
  }

  // ---------------------------------------------------------------------
  // What a report holds
  // ---------------------------------------------------------------------

  /** How many entries `v` one import is due: one per rule it breaks, or one in all if it does not resolve. */
  function Due(contexts: Contexts, from: string, site: ImportSite, rules: seq<Rule>, v: Violation): nat {
    var imp := ImportOf(from, site);
    if v.file != from || v.line != site.line then 0
    else
      match v.verdict
      case Unresolved => if imp.None? then 1 else 0
      case Broken(rule) => if imp.Some? && Rejects(contexts, rule, imp.value) then multiset(rules)[rule] else 0
  }

  function DueInFile(contexts: Contexts, from: string, sites: seq<ImportSite>, rules: seq<Rule>, v: Violation): nat {
    if sites == [] then 0
    else DueInFile(contexts, from, sites[..|sites| - 1], rules, v) + Due(contexts, from, sites[|sites| - 1], rules, v)
  }

  function DueInAll(contexts: Contexts, files: seq<SourceFile>, rules: seq<Rule>, v: Violation): nat {
    if files == [] then 0
    else
      DueInAll(contexts, files[..|files| - 1], rules, v)
      + DueInFile(contexts, files[|files| - 1].path, files[|files| - 1].sites, rules, v)
  }

  lemma {:induction false} RuleViolationsDue(contexts: Contexts, from: string, line: nat, imp: Import, rules: seq<Rule>,
                                             v: Violation)
    ensures multiset(RuleViolations(contexts, from, line, imp, rules))[v] ==
            if v.file == from && v.line == line && v.verdict.Broken? && Rejects(contexts, v.verdict.rule, imp)
            then multiset(rules)[v.verdict.rule] else 0
  {
    if rules != [] {
      var n := |rules| - 1;
      RuleViolationsDue(contexts, from, line, imp, rules[..n], v);
      assert multiset(rules) == multiset(rules[..n]) + multiset{rules[n]} by {
        assert rules == rules[..n] + [rules[n]];
      }
      var before := RuleViolations(contexts, from, line, imp, rules[..n]);
      var last := Violation(from, line, Broken(rules[n]));
      assert multiset(before + [last]) == multiset(before) + multiset{last} && before + [] == before;
    }
  }

  lemma {:induction false} FileViolationsDue(contexts: Contexts, from: string, sites: seq<ImportSite>, rules: seq<Rule>,
                                             v: Violation)
    ensures multiset(FileViolations(contexts, from, sites, rules))[v] == DueInFile(contexts, from, sites, rules, v)
  {
    if sites != [] {
      var n := |sites| - 1;
      FileViolationsDue(contexts, from, sites[..n], rules, v);
      if ImportOf(from, sites[n]).Some? {
        RuleViolationsDue(contexts, from, sites[n].line, ImportOf(from, sites[n]).value, rules, v);
      }
    }
  }

  /**
   A report holds what is due and nothing else: an import is reported once for each rule it breaks,
   one that does not resolve is reported once and judged by no rule, and the rest are not reported.
   */
  lemma {:induction false} ReportHoldsWhatIsDue(contexts: Contexts, files: seq<SourceFile>, rules: seq<Rule>,
                                                v: Violation)
    ensures multiset(Violations(contexts, files, rules))[v] == DueInAll(contexts, files, rules, v)
  {
    if files != [] {
      var n := |files| - 1;
      ReportHoldsWhatIsDue(contexts, files[..n], rules, v);
      FileViolationsDue(contexts, files[n].path, files[n].sites, rules, v);
    }
  }

  // ---------------------------------------------------------------------
  // An empty report
  // ---------------------------------------------------------------------

  ghost predicate SiteIsClean(contexts: Contexts, from: string, site: ImportSite, rules: seq<Rule>) {
    && ImportOf(from, site).Some?
    && forall rule :: rule in rules ==> !Rejects(contexts, rule, ImportOf(from, site).value)
  }

  ghost predicate FileIsClean(contexts: Contexts, from: string, sites: seq<ImportSite>, rules: seq<Rule>) {
    forall i :: 0 <= i < |sites| ==> SiteIsClean(contexts, from, sites[i], rules)
  }

  ghost predicate Clean(contexts: Contexts, files: seq<SourceFile>, rules: seq<Rule>) {
    forall i :: 0 <= i < |files| ==> FileIsClean(contexts, files[i].path, files[i].sites, rules)
  }

  lemma {:induction false} NoRuleViolations(contexts: Contexts, from: string, line: nat, imp: Import, rules: seq<Rule>)
    ensures RuleViolations(contexts, from, line, imp, rules) == [] <==>
            forall rule :: rule in rules ==> !Rejects(contexts, rule, imp)
  {
    if rules != [] {
      var n := |rules| - 1;
      NoRuleViolations(contexts, from, line, imp, rules[..n]);
      assert forall rule :: rule in rules <==> rule in rules[..n] || rule == rules[n] by {
        assert rules == rules[..n] + [rules[n]];
      }
      var before := RuleViolations(contexts, from, line, imp, rules[..n]);
      assert before + [] == before;
    }
  }

  lemma NoSiteViolations(contexts: Contexts, from: string, site: ImportSite, rules: seq<Rule>)
    ensures SiteViolations(contexts, from, site, rules) == [] <==> SiteIsClean(contexts, from, site, rules)
  {
    if ImportOf(from, site).Some? {
      NoRuleViolations(contexts, from, site.line, ImportOf(from, site).value, rules);
    }
  }

  lemma {:induction false} NoFileViolations(contexts: Contexts, from: string, sites: seq<ImportSite>, rules: seq<Rule>)
    ensures FileViolations(contexts, from, sites, rules) == [] <==> FileIsClean(contexts, from, sites, rules)
  {
    if sites != [] {
      var n := |sites| - 1;
      NoFileViolations(contexts, from, sites[..n], rules);
      NoSiteViolations(contexts, from, sites[n], rules);
      assert FileIsClean(contexts, from, sites, rules) <==>
             FileIsClean(contexts, from, sites[..n], rules) && SiteIsClean(contexts, from, sites[n], rules);
    }
  }

  /** Nothing is reported exactly when every import resolves and no rule rejects any of them. */
  lemma {:induction false} EmptyReportIffClean(contexts: Contexts, files: seq<SourceFile>, rules: seq<Rule>)
    ensures Violations(contexts, files, rules) == [] <==> Clean(contexts, files, rules)
  {
    if files != [] {
      var n := |files| - 1;
      EmptyReportIffClean(contexts, files[..n], rules);
      NoFileViolations(contexts, files[n].path, files[n].sites, rules);
      var last := files[n];
      assert Clean(contexts, files, rules) <==>
             Clean(contexts, files[..n], rules) && FileIsClean(contexts, last.path, last.sites, rules);
    }
  }
}
