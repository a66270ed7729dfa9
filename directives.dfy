/**
 * The three inline directives a test case checks (test.js:48-111) and the
 * node-kind filters their anchors are chosen by (test.js:33-35, 54).
 *
 * astannotate's comment scanning is outside the model: a case arrives as
 * the list of directives in the order astannotate calls back, each with the
 * node it is anchored to. The analysis session's answers arrive as values:
 * the snapshot of Snapshot.Inspect for DEF, and for TYPE and HAS_PROPS a
 * function giving, per anchor node, the value type and the function type of
 * the smallest enclosing expression.
 */
module Directives {
  import opened Wrappers
  import opened Text
  import opened Snapshot

  /** An AST node: its identity and its `type` field. Offsets are left out. */
  datatype Node = Node(id: NodeId, nodeType: string)

  datatype Kind = Def | Type | HasProps

  /** `nodeFilter`, the anchor filter of TYPE and HAS_PROPS. */
  function NodeFilter(t: string): (r: bool)
    ensures r <==> t == "Identifier" || t == "ThisExpression"
  {
    IndexOf(["Identifier", "ThisExpression"], t) > -1
  }

  /** The anchor filter of DEF. */
  predicate DefNodeFilter(t: string) {
    t == "Identifier" || t == "Literal" || t == "FunctionExpression"
  }

  /** The filter astannotate is given for each directive kind. */
  predicate Accepts(k: Kind, t: string) {
    match k
    case Def => DefNodeFilter(t)
    case Type => NodeFilter(t)
    case HasProps => NodeFilter(t)
  }

  /**
   * The two filters overlap only on identifiers: a literal or a function
   * expression can carry only DEF, `this` only TYPE and HAS_PROPS.
   */
  lemma FiltersOverlapOnIdentifiers(t: string)
    ensures Accepts(Def, t) && Accepts(Type, t) <==> t == "Identifier"
    ensures Accepts(Type, t) <==> Accepts(HasProps, t)
  {
  }

  // ----- DEF -----

  /** A DEF payload `<path>[:<kind>[:<alias>]]`; an empty alias means none was given. */
  datatype DefRequest = DefRequest(path: string, kind: string, alias: string)

  /** `info.split(':')`, then the path, `info[1] || 'nonlocal'` and `info[2]`. */
  function ParseDef(info: string): (r: DefRequest)
    ensures ':' !in r.path && ':' !in r.kind && ':' !in r.alias
    ensures r.kind != ""
  {
    var parts := Split(info, ':');
    DefRequest(
      parts[0],
      if |parts| > 1 && parts[1] != "" then parts[1] else "nonlocal",
      if |parts| > 2 then parts[2] else "")
  }

  /** A request that a payload can spell; an empty kind is spelled `path:` or `path::alias`. */
  predicate WellFormed(r: DefRequest) {
    ':' !in r.path && ':' !in r.kind && ':' !in r.alias
  }

  /** The payload a fixture writes for a request; the inverse of ParseDef. */
  function FormatDef(r: DefRequest): string {
    r.path + [':'] + r.kind + (if r.alias == "" then "" else [':'] + r.alias)
  }

  /** Parsing a formatted request gives the request back, an empty kind read as `nonlocal`. */
  lemma ParseFormatDef(r: DefRequest)
    requires WellFormed(r)
    ensures ParseDef(FormatDef(r)) == r.(kind := if r.kind == "" then "nonlocal" else r.kind)
  {
    if r.alias == "" {
      SplitWhole(r.kind, ':');
      SplitAtFirst(r.path, ':', r.kind);
      assert FormatDef(r) == r.path + [':'] + r.kind;
    } else {
      SplitWhole(r.alias, ':');
      SplitAtFirst(r.kind, ':', r.alias);
      SplitAtFirst(r.path, ':', r.kind + [':'] + r.alias);
      assert FormatDef(r) == r.path + [':'] + (r.kind + [':'] + r.alias);
    }
  }

  /** A bare path asks for a nonlocal definition that is not an alias. */
  lemma ParseDefPathOnly(path: string)
    requires ':' !in path
    ensures ParseDef(path) == DefRequest(path, "nonlocal", "")
  {
    SplitWhole(path, ':');
  }

  /** An empty kind segment means nonlocal, and segments after the alias are ignored. */
  lemma ParseDefIgnoresLater(path: string, kind: string, alias: string, tail: string)
    requires ':' !in path && ':' !in kind && ':' !in alias
    ensures ParseDef(path + [':'] + kind + [':'] + alias + [':'] + tail)
         == DefRequest(path, if kind == "" then "nonlocal" else kind, alias)
  {
    SplitAtFirst(alias, ':', tail);
    SplitAtFirst(kind, ':', alias + [':'] + tail);
    SplitAtFirst(path, ':', kind + [':'] + (alias + [':'] + tail));
    assert path + [':'] + kind + [':'] + alias + [':'] + tail
        == path + [':'] + (kind + [':'] + (alias + [':'] + tail));
  }

  /** An empty alias segment at the end is no alias: `path:kind:` asks for none. */
  lemma ParseDefEmptyAlias(path: string, kind: string)
    requires ':' !in path && ':' !in kind
    ensures ParseDef(path + [':'] + kind + [':']) == DefRequest(path, if kind == "" then "nonlocal" else kind, "")
  {
    SplitAtFirst(kind, ':', []);
    SplitAtFirst(path, ':', kind + [':']);
    assert kind + [':'] + [] == kind + [':'];
    assert path + [':'] + kind + [':'] == path + [':'] + (kind + [':']);
  }

  datatype DefFailure =
    | UnknownKind(kind: string)                           // `defs` is undefined: a TypeError
    | NotEmitted(kind: string, path: string, known: set<string>)
    | NoOriginNode(kind: string, path: string)
    | WrongOriginNode(anchor: NodeId, origin: NodeId)
    | NotAnAlias(kind: string, path: string)
    | WrongAlias(want: string, got: string)
    | UnexpectedAlias(kind: string, path: string, got: string)

  /** The alias recorded for a path, with "" for none (every falsy value). */
  function RecordedAlias(snap: Tables, local: bool, path: string): string {
    if path in snap.AliasTable(local) then snap.AliasTable(local)[path] else ""
  }

  /** What a DEF directive asserts of the snapshot. */
  ghost predicate DefHolds(snap: Tables, node: NodeId, r: DefRequest) {
    && (r.kind == "local" || r.kind == "nonlocal")
    && var local := r.kind == "local";
    && r.path in snap.Table(local)
    && snap.Table(local)[r.path].originNode == Some(node)
    && (r.alias != "" ==> r.path in snap.AliasTable(local) && snap.AliasTable(local)[r.path] == r.alias)
    && (r.alias == "" ==> r.path !in snap.AliasTable(local) || snap.AliasTable(local)[r.path] == "")
  }

  /** The body of the DEF visitor (test.js:55-69): the first failing assertion, or a pass. */
  function CheckDef(snap: Tables, node: NodeId, info: string): (v: Verdict<DefFailure>)
    ensures v.Pass? <==> DefHolds(snap, node, ParseDef(info))
    ensures var r := ParseDef(info);
      v == Fail(UnknownKind(r.kind)) <==> r.kind != "local" && r.kind != "nonlocal"
    ensures var r := ParseDef(info); var local := r.kind == "local";
      v.Fail? && v.failure.NotEmitted? <==> r.kind in {"local", "nonlocal"} && r.path !in snap.Table(local)
    ensures var r := ParseDef(info); var local := r.kind == "local";
      v.Fail? && (v.failure.NotAnAlias? || v.failure.WrongAlias? || v.failure.UnexpectedAlias?)
      ==> r.path in snap.Table(local) && snap.Table(local)[r.path].originNode == Some(node)
    ensures var r := ParseDef(info);
      v.Fail? && v.failure.NotAnAlias? ==> r.alias != "" && RecordedAlias(snap, r.kind == "local", r.path) == ""
  {
    var r := ParseDef(info);
    match snap.DefsOf(r.kind)
    case None => Fail(UnknownKind(r.kind))
    case Some(defs) =>
      if r.path !in defs then Fail(NotEmitted(r.kind, r.path, defs.Keys))
      else if defs[r.path].originNode.None? then Fail(NoOriginNode(r.kind, r.path))
      else if defs[r.path].originNode.value != node then Fail(WrongOriginNode(node, defs[r.path].originNode.value))
      else
        var aliases := snap.AliasesOf(r.kind).value;
        var recorded := if r.path in aliases then aliases[r.path] else "";
        if r.alias != "" then
          if recorded == "" then Fail(NotAnAlias(r.kind, r.path))
          else if recorded != r.alias then Fail(WrongAlias(r.alias, recorded))
          else Pass
        else if recorded != "" then Fail(UnexpectedAlias(r.kind, r.path, recorded))
        else Pass
  }

  function BucketName(local: bool): string {
    if local then "local" else "nonlocal"
  }

  /** The snapshot facts behind a DEF without an alias: the last definition of the path, and no alias. */
  lemma LastDefHolds(vs: seq<Visit>, i: int, node: NodeId)
    requires 0 <= i < |vs|
    requires forall j :: i < j < |vs| ==> !Writes(vs, j, vs[i].path, vs[i].local)
    requires vs[i].prop.originNode == Some(node)
    requires forall j :: !WritesAlias(vs, j, vs[i].path, vs[i].local)
    ensures DefHolds(Fold(vs), node, DefRequest(vs[i].path, BucketName(vs[i].local), ""))
  {
    var snap, path, local := Fold(vs), vs[i].path, vs[i].local;
    assert path in snap.Table(local) && snap.Table(local)[path].originNode == Some(node) by {
      FoldLastWrite(vs, i);
    }
    assert path !in snap.AliasTable(local) by {
      FoldAliasKeys(vs, path, local);
    }
    assert (BucketName(local) == "local") == local;
  }

  /**
   * A visit that is the last one of its path and bucket, defined at the
   * anchor node, with no alias ever recorded for that path and bucket,
   * passes a DEF directive that names its path and bucket and no alias.
   */
  lemma DefPassesForLastVisit(vs: seq<Visit>, i: int, node: NodeId, info: string)
    requires 0 <= i < |vs|
    requires forall j :: i < j < |vs| ==> !Writes(vs, j, vs[i].path, vs[i].local)
    requires vs[i].prop.originNode == Some(node)
    requires forall j :: !WritesAlias(vs, j, vs[i].path, vs[i].local)
    requires ParseDef(info) == DefRequest(vs[i].path, BucketName(vs[i].local), "")
    ensures CheckDef(Fold(vs), node, info).Pass?
  {
    LastDefHolds(vs, i, node);
  }

  /** The snapshot facts behind an alias DEF: the last definition and the last truthy alias of the path. */
  lemma LastAliasHolds(vs: seq<Visit>, i: int, k: int, node: NodeId)
    requires 0 <= i < |vs|
    requires forall j :: i < j < |vs| ==> !Writes(vs, j, vs[i].path, vs[i].local)
    requires vs[i].prop.originNode == Some(node)
    requires WritesAlias(vs, k, vs[i].path, vs[i].local)
    requires forall j :: k < j < |vs| ==> !WritesAlias(vs, j, vs[i].path, vs[i].local)
    ensures DefHolds(Fold(vs), node, DefRequest(vs[i].path, BucketName(vs[i].local), vs[k].alias))
  {
    var snap, path, local := Fold(vs), vs[i].path, vs[i].local;
    assert path in snap.Table(local) && snap.Table(local)[path].originNode == Some(node) by {
      FoldLastWrite(vs, i);
    }
    assert path in snap.AliasTable(local) && snap.AliasTable(local)[path] == vs[k].alias by {
      assert vs[k].path == path && vs[k].local == local;
      FoldLastAlias(vs, k);
    }
    assert (BucketName(local) == "local") == local;
  }

  /**
   * The same for an alias: a DEF directive naming the path, its bucket and
   * the last truthy alias recorded for the path passes.
   */
  lemma DefAliasPassesForLastVisit(vs: seq<Visit>, i: int, k: int, node: NodeId, info: string)
    requires 0 <= i < |vs|
    requires forall j :: i < j < |vs| ==> !Writes(vs, j, vs[i].path, vs[i].local)
    requires vs[i].prop.originNode == Some(node)
    requires WritesAlias(vs, k, vs[i].path, vs[i].local)
    requires forall j :: k < j < |vs| ==> !WritesAlias(vs, j, vs[i].path, vs[i].local)
    requires ParseDef(info) == DefRequest(vs[i].path, BucketName(vs[i].local), vs[k].alias)
    ensures CheckDef(Fold(vs), node, info).Pass?
  {
    LastAliasHolds(vs, i, k, node);
  }

  // ----- TYPE -----

  /** What the model keeps of a tern type: `toString(1)` and the names `forAllProps` enumerates. */
  datatype TypeInfo = TypeInfo(rendered: string, props: seq<string>)

  /** The session's answer for an expression: `getType(true)` and `getFunctionType()`. */
  datatype Inferred = Inferred(valueType: Option<TypeInfo>, fnType: Option<TypeInfo>)

  /** The type the visitors check (test.js:79): the value type if there is one, else the function type. */
  function ChosenType(e: Inferred): (r: Option<TypeInfo>)
    ensures r.None? <==> e.valueType.None? && e.fnType.None?
    ensures e.valueType.Some? ==> r == e.valueType
    ensures r.Some? && e.valueType.None? ==> r == e.fnType
  {
    if e.valueType.Some? then e.valueType else e.fnType
  }

  datatype TypeFailure = NoType | TypeMismatch(want: string, got: string)

  /** The body of the TYPE visitor (test.js:79-82). */
  function CheckType(e: Inferred, want: string): (v: Verdict<TypeFailure>)
    ensures v.Pass? <==> ChosenType(e).Some? && ChosenType(e).value.rendered == want
    ensures v == Fail(NoType) <==> ChosenType(e).None?
    ensures v.Fail? && v.failure.TypeMismatch? ==>
      v.failure.want == want && v.failure.got == ChosenType(e).value.rendered && v.failure.got != want
  {
    match ChosenType(e)
    case None => Fail(NoType)
    case Some(t) => if t.rendered == want then Pass else Fail(TypeMismatch(want, t.rendered))
  }

  /** With a value type present the function type plays no part. */
  lemma ValueTypeShadowsFunctionType(v: TypeInfo, f1: Option<TypeInfo>, f2: Option<TypeInfo>, want: string)
    ensures CheckType(Inferred(Some(v), f1), want) == CheckType(Inferred(Some(v), f2), want)
  {
  }

  // ----- HAS_PROPS -----

  /** The wanted names (test.js:86): the payload trimmed as a whole, not name by name, then split at each comma. */
  function WantedProps(payload: string): (r: seq<string>)
    ensures |r| >= 1
    ensures forall i :: 0 <= i < |r| ==> ',' !in r[i]
  {
    Split(Trim(payload), ',')
  }

  /**
   * A payload is the comma-separated names, padded with white space only at
   * its two ends: white space next to an inner comma stays part of a name.
   */
  lemma WantedPropsNames(a: string, names: seq<string>, b: string)
    requires AllSpace(a) && AllSpace(b)
    requires |names| >= 1 && forall i :: 0 <= i < |names| ==> ',' !in names[i]
    requires Trimmed(Join(names, ','))
    ensures WantedProps(a + Join(names, ',') + b) == names
  {
    TrimUnpads(a, Join(names, ','), b);
    SplitJoin(names, ',');
  }

  /** A blank payload wants a single property named by the empty string. */
  lemma WantedPropsBlank(payload: string)
    requires AllSpace(payload)
    ensures WantedProps(payload) == [""]
  {
    TrimUnpads(payload, [], []);
    assert payload + [] + [] == payload;
  }

  /** One enumerated property removes the first equal wanted name, if there is one (test.js:100-101). */
  function RemoveFirst(want: seq<string>, p: string): (r: seq<string>)
    ensures multiset(r) == multiset(want) - multiset{p}
    ensures p in want ==> |r| == |want| - 1
    ensures p !in want ==> r == want
  {
    var i := IndexOf(want, p);
    if i == -1 then want
    else
      assert want == want[..i] + [p] + want[i + 1..];
      want[..i] + want[i + 1..]
  }

  /** The wanted names left after each enumerated property has removed one equal entry. */
  function Pending(want: seq<string>, props: seq<string>): seq<string>
    decreases |props|
  {
    if props == [] then want
    else RemoveFirst(Pending(want, props[..|props| - 1]), props[|props| - 1])
  }

  /** The multiset of a sequence is that of its front plus its last element. */
  lemma MultisetOfSnoc(s: seq<string>)
    requires s != []
    ensures multiset(s) == multiset(s[..|s| - 1]) + multiset{s[|s| - 1]}
  {
    assert s == s[..|s| - 1] + [s[|s| - 1]];
  }

  /** Each enumerated property cancels at most one wanted entry: multiset difference. */
  lemma {:induction false} PendingIsDifference(want: seq<string>, props: seq<string>)
    ensures multiset(Pending(want, props)) == multiset(want) - multiset(props)
    decreases |props|
  {
    if props == [] {
      assert multiset(props) == multiset{};
    } else {
      var init, p := props[..|props| - 1], props[|props| - 1];
      PendingIsDifference(want, init);
      MultisetOfSnoc(props);
      assert (multiset(want) - multiset(init)) - multiset{p} == multiset(want) - (multiset(init) + multiset{p});
    }
  }

  /** One more enumerated property removes one more wanted entry. */
  lemma PendingNext(want: seq<string>, props: seq<string>, n: nat)
    requires n < |props|
    ensures Pending(want, props[..n + 1]) == RemoveFirst(Pending(want, props[..n]), props[n])
  {
    assert props[..n + 1][..n] == props[..n];
  }

  datatype PropsFailure = NoPropsType | Missing(missing: seq<string>, all: seq<string>)

  /** What the HAS_PROPS visitor (test.js:86-106) decides. */
  function HasPropsVerdict(e: Inferred, payload: string): Verdict<PropsFailure>
  {
    match ChosenType(e)
    case None => Fail(NoPropsType)
    case Some(t) =>
      var rest := Pending(WantedProps(payload), t.props);
      if rest == [] then Pass else Fail(Missing(Sort(rest), Sort(t.props)))
  }

  /** The body of the HAS_PROPS visitor, enumerating the chosen type's properties one by one. */
  method CheckHasProps(e: Inferred, payload: string) returns (v: Verdict<PropsFailure>)
    ensures v == HasPropsVerdict(e, payload)
  {
    var wantProps := WantedProps(payload);
    var chosen := ChosenType(e);
    if chosen.None? {
      return Fail(NoPropsType);
    }
    var props := chosen.value.props;
    var allProps: seq<string> := [];
    for n := 0 to |props|
      invariant allProps == props[..n]
      invariant wantProps == Pending(WantedProps(payload), props[..n])
    {
      var prop := props[n];
      PendingNext(WantedProps(payload), props, n);
      PrefixNext(props, n);
      allProps := allProps + [prop];
      var i := IndexOf(wantProps, prop);
      if i != -1 {
        wantProps := wantProps[..i] + wantProps[i + 1..];
      }
    }
    PrefixWhole(props);
    wantProps := Sort(wantProps);
    allProps := Sort(allProps);
    if |wantProps| == 0 {
      v := Pass;
    } else {
      v := Fail(Missing(wantProps, allProps));
    }
  }

  /**
   * The subset law: HAS_PROPS passes exactly when a type was found and every
   * wanted name, counted with its repetitions, is among the enumerated ones.
   */
  lemma HasPropsSubset(e: Inferred, payload: string)
    ensures HasPropsVerdict(e, payload).Pass? <==>
      ChosenType(e).Some? && multiset(WantedProps(payload)) <= multiset(ChosenType(e).value.props)
  {
    if ChosenType(e).Some? {
      var w, ps := WantedProps(payload), ChosenType(e).value.props;
      PendingIsDifference(w, ps);
      var rest := Pending(w, ps);
      assert rest == [] <==> multiset(rest) == multiset{};
      assert multiset(w) - multiset(ps) == multiset{} <==> multiset(w) <= multiset(ps) by {
        if multiset(w) - multiset(ps) == multiset{} {
          forall x ensures multiset(w)[x] <= multiset(ps)[x] {
            assert (multiset(w) - multiset(ps))[x] == 0;
          }
        }
      }
    }
  }

  lemma EmptyDifferenceGrows(w: multiset<string>, p: multiset<string>, q: multiset<string>)
    requires w - p == multiset{} && p <= q
    ensures w - q == multiset{}
  {
    forall x ensures (w - q)[x] == 0 {
      assert (w - p)[x] == 0;
    }
  }

  /**
   * Extra enumerated properties never make HAS_PROPS fail: once every wanted
   * name is matched, enumerating more properties, in any order, still matches them.
   */
  lemma ExtraPropsNeverFail(want: seq<string>, props: seq<string>, more: seq<string>)
    requires Pending(want, props) == []
    requires multiset(props) <= multiset(more)
    ensures Pending(want, more) == []
  {
    PendingIsDifference(want, props);
    PendingIsDifference(want, more);
    assert multiset(Pending(want, props)) == multiset{};
    EmptyDifferenceGrows(multiset(want), multiset(props), multiset(more));
    assert |multiset(Pending(want, more))| == 0;
  }

  /** A wanted name that is never enumerated stays pending, and so is reported missing. */
  lemma NeverEnumeratedStaysMissing(want: seq<string>, props: seq<string>, x: string)
    requires x in want && x !in props
    ensures x in Pending(want, props)
  {
    PendingIsDifference(want, props);
    assert multiset(want)[x] > 0 && multiset(props)[x] == 0;
    assert multiset(Pending(want, props))[x] > 0;
  }

  /**
   * Duplicate wanted names are not collapsed: a name stays pending exactly
   * when it is wanted more times than it is enumerated.
   */
  lemma DuplicatesNeedEachTheirOwn(want: seq<string>, props: seq<string>, x: string)
    ensures x in Pending(want, props) <==> multiset(want)[x] > multiset(props)[x]
  {
    var rest := Pending(want, props);
    PendingIsDifference(want, props);
    assert x in rest <==> x in multiset(rest);
    assert multiset(rest)[x] == (multiset(want) - multiset(props))[x];
  }

  // ----- one test case -----

  /** One directive as astannotate hands it over. */
  datatype Directive = Directive(kind: Kind, payload: string, anchor: Node)

  datatype Failure = DefFailed(def: DefFailure) | TypeFailed(typ: TypeFailure) | PropsFailed(props: PropsFailure)

  /** A failed case: the directive whose assertion threw first, and why. */
  datatype CaseFailure = CaseFailure(index: nat, failure: Failure)

  /** The verdict of the visitor for one directive. */
  function DirectiveVerdict(snap: Tables, infer: Node -> Inferred, d: Directive): Verdict<Failure>
  {
    match d.kind
    case Def =>
      var v := CheckDef(snap, d.anchor.id, d.payload);
      if v.Pass? then Pass else Fail(DefFailed(v.failure))
    case Type =>
      var v := CheckType(infer(d.anchor), d.payload);
      if v.Pass? then Pass else Fail(TypeFailed(v.failure))
    case HasProps =>
      var v := HasPropsVerdict(infer(d.anchor), d.payload);
      if v.Pass? then Pass else Fail(PropsFailed(v.failure))
  }

  /**
   * The `it` callback (test.js:48-111): the visitors run in turn, and the
   * first assertion that throws ends the case with its diagnostic.
   */
  method RunCase(snap: Tables, infer: Node -> Inferred, ds: seq<Directive>) returns (v: Verdict<CaseFailure>)
    ensures v.Pass? <==> forall i :: 0 <= i < |ds| ==> DirectiveVerdict(snap, infer, ds[i]).Pass?
    ensures v.Fail? ==>
      && v.failure.index < |ds|
      && DirectiveVerdict(snap, infer, ds[v.failure.index]) == Fail(v.failure.failure)
      && forall j :: 0 <= j < v.failure.index ==> DirectiveVerdict(snap, infer, ds[j]).Pass?
  {
    for i := 0 to |ds|
      invariant forall j :: 0 <= j < i ==> DirectiveVerdict(snap, infer, ds[j]).Pass?
    {
      var d := ds[i];
      var f: Verdict<Failure>;
      match d.kind {
        case Def =>
          var r := CheckDef(snap, d.anchor.id, d.payload);
          f := if r.Pass? then Pass else Fail(DefFailed(r.failure));
        case Type =>
          var r := CheckType(infer(d.anchor), d.payload);
          f := if r.Pass? then Pass else Fail(TypeFailed(r.failure));
        case HasProps =>
          var r := CheckHasProps(infer(d.anchor), d.payload);
          f := if r.Pass? then Pass else Fail(PropsFailed(r.failure));
      }
      if f.Fail? {
        return Fail(CaseFailure(i, f.failure));
      }
    }
    v := Pass;
  }
}
