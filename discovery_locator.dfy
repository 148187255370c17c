/** Route synthesis from discovered service instances
    (DiscoveryClientRouteDefinitionLocator): every discovered service becomes
    one route definition whose id, URI, predicates and filters are resolved
    from configured templates against the service's first instance. */
module DiscoveryLocator {
  import opened Wrappers

  // ---------------------------------------------------------------------------
  // Data model
  // ---------------------------------------------------------------------------

  /** One discovered service instance, as the discovery backend reports it. */
  datatype ServiceInstance = ServiceInstance(
    serviceId: string,
    host: string,
    port: int,
    secure: bool,
    uri: string,
    metadata: map<string, string>,
    scheme: string)

  /** A configured predicate or filter: a name and argument templates, in
      insertion order (a LinkedHashMap, so the keys are distinct). */
  datatype DefinitionTemplate = DefinitionTemplate(name: string, args: seq<(string, string)>)

  /** A resolved predicate or filter definition; an argument value is `None`
      when its template evaluated to null. */
  datatype Definition = Definition(name: string, args: seq<(string, Option<string>)>)

  /** A synthesized route definition. The URI is kept as an opaque string. */
  datatype RouteDefinition = RouteDefinition(
    id: string,
    uri: string,
    predicates: seq<Definition>,
    filters: seq<Definition>)

  /** The configuration surface (DiscoveryLocatorProperties); `None` is null. */
  datatype DiscoveryLocatorProperties = DiscoveryLocatorProperties(
    routeIdPrefix: Option<string>,
    includeExpression: Option<string>,
    urlExpression: string,
    lowerCaseServiceId: bool,
    predicates: seq<DefinitionTemplate>,
    filters: seq<DefinitionTemplate>)

  /** What evaluating a template yields: a value, null, or an EvaluationException. */
  datatype Evaluated<T> = Value(value: T) | Null | Fails

  /** The expression language, left uninterpreted: whether a template parses,
      and what it evaluates to against one instance as a Boolean or a String. */
  datatype Evaluator = Evaluator(
    parses: string -> bool,
    asBool: (string, ServiceInstance) -> Evaluated<bool>,
    asString: (string, ServiceInstance) -> Evaluated<string>)

  /** What aborts a synthesis pass: a template that does not parse, one whose
      evaluation throws, or a URL template that yields null (URI.create(null)). */
  datatype SynthesisError =
    | ParseFailure(template: string)
    | EvaluationFailure(template: string)
    | NullUri(template: string)

  /** The locator's own state: the properties and the route id prefix chosen
      when it was constructed. */
  datatype Locator = Locator(properties: DiscoveryLocatorProperties, routeIdPrefix: string)

  // ---------------------------------------------------------------------------
  // Characters and strings (StringUtils.hasText, toLowerCase, equalsIgnoreCase)
  // ---------------------------------------------------------------------------

  /** Character.isWhitespace for a UTF-16 code unit: the space, line and
      paragraph separators other than the non-breaking ones, and the
      control characters TAB, LF, VT, FF, CR and FS..US. */
  predicate IsWhitespace(c: char) {
    || c == ' ' || c == '\t' || c == '\n' || c == '\U{B}' || c == '\U{C}' || c == '\r'
    || ('\U{1C}' <= c <= '\U{1F}')
    || c == '\U{1680}' || ('\U{2000}' <= c <= '\U{2006}') || ('\U{2008}' <= c <= '\U{200A}')
    || c == '\U{2028}' || c == '\U{2029}' || c == '\U{205F}' || c == '\U{3000}'
  }

  /** StringUtils.hasText: not null and holding a non-whitespace character. */
  predicate HasText(s: Option<string>) {
    s.Some? && exists i :: 0 <= i < |s.value| && !IsWhitespace(s.value[i])
  }

  predicate IsUpper(c: char) {
    'A' <= c <= 'Z'
  }

  function ToLowerChar(c: char): (l: char)
    ensures !IsUpper(l)
    ensures IsUpper(c) ==> l as int == c as int + 32
    ensures !IsUpper(c) ==> l == c
  {
    if IsUpper(c) then (c as int + 32) as char else c
  }

  /** String.toLowerCase, on ASCII letters. */
  function ToLower(s: string): (r: string)
    ensures |r| == |s|
    ensures forall i :: 0 <= i < |s| ==> r[i] == ToLowerChar(s[i])
  {
    if s == [] then [] else [ToLowerChar(s[0])] + ToLower(s[1..])
  }

  predicate EqualsIgnoreCase(a: string, b: string) {
    |a| == |b| && forall i :: 0 <= i < |a| ==> ToLowerChar(a[i]) == ToLowerChar(b[i])
  }

  /** Lower-casing a string that is already lower-case changes nothing. */
  lemma {:induction false} ToLowerIdempotent(s: string)
    ensures ToLower(ToLower(s)) == ToLower(s)
  {
    if s != [] {
      ToLowerIdempotent(s[1..]);
      assert ToLower(s)[1..] == ToLower(s[1..]);
    }
  }

  // ---------------------------------------------------------------------------
  // Construction and the evaluation view
  // ---------------------------------------------------------------------------

  /** The private constructor: the configured prefix when it has text,
      otherwise the discovery client's name followed by `_`. */
  function NewLocator(discoveryClientName: string, properties: DiscoveryLocatorProperties): (l: Locator)
    ensures l.properties == properties
    ensures HasText(properties.routeIdPrefix) ==> l.routeIdPrefix == properties.routeIdPrefix.value
    ensures !HasText(properties.routeIdPrefix) ==> l.routeIdPrefix == discoveryClientName + "_"
    ensures HasText(Some(l.routeIdPrefix))
  {
    if HasText(properties.routeIdPrefix) then
      Locator(properties, properties.routeIdPrefix.value)
    else
      var prefix := discoveryClientName + "_";
      assert prefix[|discoveryClientName|] == '_';
      Locator(properties, prefix)
  }

  /** DelegatingServiceInstance: the view of an instance that argument
      templates see. Only the service id may differ from the delegate. */
  function ForEval(delegate: ServiceInstance, properties: DiscoveryLocatorProperties): (view: ServiceInstance)
    ensures view.(serviceId := delegate.serviceId) == delegate
    ensures !properties.lowerCaseServiceId ==> view == delegate
    ensures properties.lowerCaseServiceId ==>
      EqualsIgnoreCase(view.serviceId, delegate.serviceId) &&
      forall i :: 0 <= i < |view.serviceId| ==> !IsUpper(view.serviceId[i])
  {
    if properties.lowerCaseServiceId then delegate.(serviceId := ToLower(delegate.serviceId))
    else delegate
  }

  /** Decorating the view a second time gives the same view. */
  lemma ForEvalIdempotent(delegate: ServiceInstance, properties: DiscoveryLocatorProperties)
    ensures ForEval(ForEval(delegate, properties), properties) == ForEval(delegate, properties)
  {
    ToLowerIdempotent(delegate.serviceId);
  }

  // ---------------------------------------------------------------------------
  // Templates
  // ---------------------------------------------------------------------------

  /** The fast path: no include expression, or the literal `true` in any case. */
  predicate IncludesAll(includeExpression: Option<string>) {
    includeExpression.None? || EqualsIgnoreCase(includeExpression.value, "true")
  }

  /** The include predicate, applied to the raw instance; null counts as false. */
  function Include(properties: DiscoveryLocatorProperties, ev: Evaluator, instance: ServiceInstance)
    : (r: Result<bool, SynthesisError>)
    ensures IncludesAll(properties.includeExpression) ==> r == Success(true)
    ensures !IncludesAll(properties.includeExpression) ==>
      var outcome := ev.asBool(properties.includeExpression.value, instance);
      && (r == Success(true) <==> outcome == Value(true))
      && (r == Success(false) <==> outcome == Value(false) || outcome == Null)
      && (r.Failure? <==> outcome == Fails)
      && (r.Failure? ==> r.error == EvaluationFailure(properties.includeExpression.value))
  {
    if IncludesAll(properties.includeExpression) then Success(true)
    else
      var expression := properties.includeExpression.value;
      match ev.asBool(expression, instance)
      case Value(b) => Success(b)
      case Null => Success(false)
      case Fails => Failure(EvaluationFailure(expression))
  }

  /** getValueFromExpr: parse and evaluate one argument template; either
      failure is rethrown with the offending template. */
  function GetValueFromExpr(ev: Evaluator, instance: ServiceInstance, entry: (string, string))
    : (r: Result<Option<string>, SynthesisError>)
    ensures r.Failure? <==> !ev.parses(entry.1) || ev.asString(entry.1, instance) == Fails
    ensures r.Failure? ==> r.error.template == entry.1
    ensures r.Failure? ==> r.error == if ev.parses(entry.1) then EvaluationFailure(entry.1) else ParseFailure(entry.1)
    ensures r == Success(None) <==> ev.parses(entry.1) && ev.asString(entry.1, instance) == Null
    ensures forall s :: r == Success(Some(s)) <==> ev.parses(entry.1) && ev.asString(entry.1, instance) == Value(s)
  {
    if !ev.parses(entry.1) then Failure(ParseFailure(entry.1))
    else
      match ev.asString(entry.1, instance)
      case Value(s) => Success(Some(s))
      case Null => Success(None)
      case Fails => Failure(EvaluationFailure(entry.1))
  }

  // ---------------------------------------------------------------------------
  // Ordered argument maps (LinkedHashMap)
  // ---------------------------------------------------------------------------

  function Keys<V>(args: seq<(string, V)>): (keys: seq<string>)
    ensures |keys| == |args|
    ensures forall i :: 0 <= i < |args| ==> keys[i] == args[i].0
  {
    if args == [] then [] else [args[0].0] + Keys(args[1..])
  }

  predicate KeysDistinct<V>(args: seq<(string, V)>) {
    forall i, j :: 0 <= i < j < |args| ==> args[i].0 != args[j].0
  }

  /** The value stored under `key`, if any. */
  function Get<V>(args: seq<(string, V)>, key: string): Option<V> {
    if args == [] then None
    else if args[0].0 == key then Some(args[0].1)
    else Get(args[1..], key)
  }

  /** addArg (Map.put on a LinkedHashMap): a new key is appended, an existing
      key keeps its position and takes the new value. */
  function AddArg<V>(args: seq<(string, V)>, key: string, value: V): seq<(string, V)> {
    if args == [] then [(key, value)]
    else if args[0].0 == key then [(key, value)] + args[1..]
    else [args[0]] + AddArg(args[1..], key, value)
  }

  /** A new key goes at the end. */
  lemma {:induction false} AddArgNewKey<V>(args: seq<(string, V)>, key: string, value: V)
    requires key !in Keys(args)
    ensures AddArg(args, key, value) == args + [(key, value)]
  {
    if args != [] {
      assert Keys(args)[0] == args[0].0;
      assert key !in Keys(args[1..]) by {
        forall i | 0 <= i < |args[1..]| ensures Keys(args[1..])[i] != key {
          assert Keys(args[1..])[i] == Keys(args)[i + 1];
        }
      }
      AddArgNewKey(args[1..], key, value);
      assert args == [args[0]] + args[1..];
    }
  }

  /** An existing key keeps the key order. */
  lemma {:induction false} AddArgExistingKey<V>(args: seq<(string, V)>, key: string, value: V)
    ensures Keys(AddArg(args, key, value)) == if key in Keys(args) then Keys(args) else Keys(args) + [key]
  {
    if args != [] {
      var rest := AddArg(args[1..], key, value);
      AddArgExistingKey(args[1..], key, value);
      assert Keys(args) == [args[0].0] + Keys(args[1..]);
      if args[0].0 != key {
        assert Keys([args[0]] + rest) == [args[0].0] + Keys(rest);
      } else {
        assert Keys([(key, value)] + args[1..]) == [key] + Keys(args[1..]);
      }
    }
  }

  /** After addArg the key maps to the new value and every other key keeps
      its value. */
  lemma {:induction false} AddArgGet<V>(args: seq<(string, V)>, key: string, value: V, other: string)
    ensures Get(AddArg(args, key, value), key) == Some(value)
    ensures other != key ==> Get(AddArg(args, key, value), other) == Get(args, other)
  {
    if args != [] && args[0].0 != key {
      AddArgGet(args[1..], key, value, other);
    }
  }

  // ---------------------------------------------------------------------------
  // Resolving the configured predicates and filters
  // ---------------------------------------------------------------------------

  /** The arguments of one definition, evaluated in configured order; the
      first failing template aborts. */
  function ResolveArgs(ev: Evaluator, view: ServiceInstance, args: seq<(string, string)>)
    : Result<seq<(string, Option<string>)>, SynthesisError>
    decreases |args|
  {
    if args == [] then Success([])
    else
      match ResolveArgs(ev, view, args[..|args| - 1])
      case Failure(e) => Failure(e)
      case Success(resolved) =>
        var entry := args[|args| - 1];
        match GetValueFromExpr(ev, view, entry)
        case Failure(e) => Failure(e)
        case Success(v) => Success(AddArg(resolved, entry.0, v))
  }

  /** One predicate or filter copied with its arguments resolved. */
  function ResolveDefinition(ev: Evaluator, view: ServiceInstance, original: DefinitionTemplate)
    : Result<Definition, SynthesisError>
  {
    match ResolveArgs(ev, view, original.args)
    case Failure(e) => Failure(e)
    case Success(args) => Success(Definition(original.name, args))
  }

  /** All configured predicates (or filters) resolved in order. */
  function ResolveDefinitions(ev: Evaluator, view: ServiceInstance, originals: seq<DefinitionTemplate>)
    : Result<seq<Definition>, SynthesisError>
    decreases |originals|
  {
    if originals == [] then Success([])
    else
      match ResolveDefinitions(ev, view, originals[..|originals| - 1])
      case Failure(e) => Failure(e)
      case Success(resolved) =>
        match ResolveDefinition(ev, view, originals[|originals| - 1])
        case Failure(e) => Failure(e)
        case Success(d) => Success(resolved + [d])
  }

  /** A failure while resolving a prefix of the arguments is the failure of
      the whole definition: nothing after it is evaluated. */
  lemma {:induction false} ResolveArgsPrefixFails(ev: Evaluator, view: ServiceInstance, args: seq<(string, string)>, n: nat)
    requires n <= |args|
    requires ResolveArgs(ev, view, args[..n]).Failure?
    ensures ResolveArgs(ev, view, args) == ResolveArgs(ev, view, args[..n])
    decreases |args| - n
  {
    if n < |args| {
      assert args[..n + 1][..n] == args[..n];
      ResolveArgsPrefixFails(ev, view, args, n + 1);
    } else {
      assert args[..n] == args;
    }
  }

  lemma {:induction false} ResolveDefinitionsPrefixFails(ev: Evaluator, view: ServiceInstance, originals: seq<DefinitionTemplate>, n: nat)
    requires n <= |originals|
    requires ResolveDefinitions(ev, view, originals[..n]).Failure?
    ensures ResolveDefinitions(ev, view, originals) == ResolveDefinitions(ev, view, originals[..n])
    decreases |originals| - n
  {
    if n < |originals| {
      assert originals[..n + 1][..n] == originals[..n];
      ResolveDefinitionsPrefixFails(ev, view, originals, n + 1);
    } else {
      assert originals[..n] == originals;
    }
  }

  /** With distinct keys, the resolved arguments have the configured keys in
      the configured order, each with its own template's value. */
  lemma {:induction false} ResolveArgsShape(ev: Evaluator, view: ServiceInstance, args: seq<(string, string)>)
    requires KeysDistinct(args)
    ensures ResolveArgs(ev, view, args).Success? ==>
      var resolved := ResolveArgs(ev, view, args).value;
      && |resolved| == |args|
      && forall i :: 0 <= i < |args| ==>
           resolved[i].0 == args[i].0 && GetValueFromExpr(ev, view, args[i]) == Success(resolved[i].1)
    decreases |args|
  {
    if args != [] && ResolveArgs(ev, view, args).Success? {
      var init := args[..|args| - 1];
      var entry := args[|args| - 1];
      assert KeysDistinct(init);
      ResolveArgsShape(ev, view, init);
      var resolved := ResolveArgs(ev, view, init).value;
      assert entry.0 !in Keys(resolved) by {
        forall i | 0 <= i < |resolved| ensures Keys(resolved)[i] != entry.0 {
          assert resolved[i].0 == args[i].0;
        }
      }
      AddArgNewKey(resolved, entry.0, GetValueFromExpr(ev, view, entry).value);
    }
  }

  /** Resolution succeeds exactly when every argument template does. */
  lemma {:induction false} ResolveArgsSucceeds(ev: Evaluator, view: ServiceInstance, args: seq<(string, string)>)
    ensures ResolveArgs(ev, view, args).Success? <==>
      forall i :: 0 <= i < |args| ==> GetValueFromExpr(ev, view, args[i]).Success?
    decreases |args|
  {
    if args != [] {
      var init := args[..|args| - 1];
      ResolveArgsSucceeds(ev, view, init);
      assert forall i :: 0 <= i < |init| ==> init[i] == args[i];
      if ResolveArgs(ev, view, init).Failure? {
        assert ResolveArgs(ev, view, args).Failure?;
      } else {
        assert ResolveArgs(ev, view, args).Success? <==> GetValueFromExpr(ev, view, args[|args| - 1]).Success?;
      }
    }
  }

  /** A failed resolution reports the error of the first failing template. */
  lemma {:induction false} ResolveArgsFirstError(ev: Evaluator, view: ServiceInstance, args: seq<(string, string)>)
    requires ResolveArgs(ev, view, args).Failure?
    ensures exists i :: (0 <= i < |args| &&
      GetValueFromExpr(ev, view, args[i]) == Failure(ResolveArgs(ev, view, args).error) &&
      forall j :: 0 <= j < i ==> GetValueFromExpr(ev, view, args[j]).Success?)
    decreases |args|
  {
    var init := args[..|args| - 1];
    var e := ResolveArgs(ev, view, args).error;
    assert forall i :: 0 <= i < |init| ==> init[i] == args[i];
    if ResolveArgs(ev, view, init).Failure? {
      ResolveArgsFirstError(ev, view, init);
      var i :| 0 <= i < |init| &&
        GetValueFromExpr(ev, view, init[i]) == Failure(e) &&
        forall j :: 0 <= j < i ==> GetValueFromExpr(ev, view, init[j]).Success?;
      assert GetValueFromExpr(ev, view, args[i]) == Failure(e);
    } else {
      ResolveArgsSucceeds(ev, view, init);
      var i := |args| - 1;
      assert GetValueFromExpr(ev, view, args[i]) == Failure(e);
      assert forall j :: 0 <= j < i ==> GetValueFromExpr(ev, view, args[j]).Success?;
    }
  }

  /** The resolved definitions have the configured names in the configured
      order; each one's arguments are its own template's resolution. */
  lemma {:induction false} ResolveDefinitionsShape(ev: Evaluator, view: ServiceInstance, originals: seq<DefinitionTemplate>)
    ensures ResolveDefinitions(ev, view, originals).Success? <==>
      forall i :: 0 <= i < |originals| ==> ResolveArgs(ev, view, originals[i].args).Success?
    ensures ResolveDefinitions(ev, view, originals).Success? ==>
      var resolved := ResolveDefinitions(ev, view, originals).value;
      && |resolved| == |originals|
      && forall i :: 0 <= i < |originals| ==>
           resolved[i].name == originals[i].name &&
           ResolveArgs(ev, view, originals[i].args) == Success(resolved[i].args)
    decreases |originals|
  {
    if originals != [] {
      var init := originals[..|originals| - 1];
      ResolveDefinitionsShape(ev, view, init);
      assert forall i :: 0 <= i < |init| ==> init[i] == originals[i];
    }
  }

  // ---------------------------------------------------------------------------
  // One route
  // ---------------------------------------------------------------------------

  /** The route built for one included instance: id and URI from the raw
      instance, predicates and filters against the evaluation view. */
  function RouteFor(locator: Locator, ev: Evaluator, instance: ServiceInstance)
    : Result<RouteDefinition, SynthesisError>
  {
    var properties := locator.properties;
    var id := locator.routeIdPrefix + instance.serviceId;
    match ev.asString(properties.urlExpression, instance)
    case Fails => Failure(EvaluationFailure(properties.urlExpression))
    case Null => Failure(NullUri(properties.urlExpression))
    case Value(uri) =>
      var view := ForEval(instance, properties);
      match ResolveDefinitions(ev, view, properties.predicates)
      case Failure(e) => Failure(e)
      case Success(predicates) =>
        match ResolveDefinitions(ev, view, properties.filters)
        case Failure(e) => Failure(e)
        case Success(filters) => Success(RouteDefinition(id, uri, predicates, filters))
  }

  /** What a built route is: its id is the prefix and the raw (never
      lower-cased) service id, its URI the URL template's value on the raw
      instance, and its predicates and filters correspond one to one, in
      order, to the configured ones, resolved against the evaluation view.
      Building fails exactly when one of those evaluations does. */
  lemma RouteForShape(locator: Locator, ev: Evaluator, instance: ServiceInstance)
    ensures
      var properties := locator.properties;
      var view := ForEval(instance, properties);
      RouteFor(locator, ev, instance).Success? <==>
        && ev.asString(properties.urlExpression, instance).Value?
        && (forall i :: 0 <= i < |properties.predicates| ==> ResolveArgs(ev, view, properties.predicates[i].args).Success?)
        && (forall i :: 0 <= i < |properties.filters| ==> ResolveArgs(ev, view, properties.filters[i].args).Success?)
    ensures RouteFor(locator, ev, instance).Success? ==>
      var properties := locator.properties;
      var view := ForEval(instance, properties);
      var route := RouteFor(locator, ev, instance).value;
      && route.id == locator.routeIdPrefix + instance.serviceId
      && ev.asString(properties.urlExpression, instance) == Value(route.uri)
      && |route.predicates| == |properties.predicates|
      && (forall i :: 0 <= i < |properties.predicates| ==>
            route.predicates[i].name == properties.predicates[i].name &&
            ResolveArgs(ev, view, properties.predicates[i].args) == Success(route.predicates[i].args))
      && |route.filters| == |properties.filters|
      && (forall i :: 0 <= i < |properties.filters| ==>
            route.filters[i].name == properties.filters[i].name &&
            ResolveArgs(ev, view, properties.filters[i].args) == Success(route.filters[i].args))
  {
    var view := ForEval(instance, locator.properties);
    ResolveDefinitionsShape(ev, view, locator.properties.predicates);
    ResolveDefinitionsShape(ev, view, locator.properties.filters);
  }

  /** The body of the inner loops: a new definition named like the original,
      with each argument template resolved and added in order. */
  method CopyDefinition(ev: Evaluator, view: ServiceInstance, original: DefinitionTemplate)
    returns (r: Result<Definition, SynthesisError>)
    ensures r == ResolveDefinition(ev, view, original)
  {
    var args: seq<(string, Option<string>)> := [];
    for i := 0 to |original.args|
      invariant ResolveArgs(ev, view, original.args[..i]) == Success(args)
    {
      var entry := original.args[i];
      assert original.args[..i + 1][..i] == original.args[..i];
      var value := GetValueFromExpr(ev, view, entry);
      if value.Failure? {
        ResolveArgsPrefixFails(ev, view, original.args, i + 1);
        return Failure(value.error);
      }
      args := AddArg(args, entry.0, value.value);
    }
    assert original.args[..|original.args|] == original.args;
    return Success(Definition(original.name, args));
  }

  /** One of the two outer loops: every configured definition copied, in
      order, into a new list. */
  method CopyDefinitions(ev: Evaluator, view: ServiceInstance, originals: seq<DefinitionTemplate>)
    returns (r: Result<seq<Definition>, SynthesisError>)
    ensures r == ResolveDefinitions(ev, view, originals)
  {
    var definitions: seq<Definition> := [];
    for i := 0 to |originals|
      invariant ResolveDefinitions(ev, view, originals[..i]) == Success(definitions)
    {
      assert originals[..i + 1][..i] == originals[..i];
      var copied := CopyDefinition(ev, view, originals[i]);
      if copied.Failure? {
        ResolveDefinitionsPrefixFails(ev, view, originals, i + 1);
        return Failure(copied.error);
      }
      definitions := definitions + [copied.value];
    }
    assert originals[..|originals|] == originals;
    return Success(definitions);
  }

  /** The mapping step of the pipeline: build one route definition. */
  method CreateRouteDefinition(locator: Locator, ev: Evaluator, instance: ServiceInstance)
    returns (r: Result<RouteDefinition, SynthesisError>)
    ensures r == RouteFor(locator, ev, instance)
  {
    var properties := locator.properties;
    var serviceId := instance.serviceId;
    var id := locator.routeIdPrefix + serviceId;
    var uri;
    match ev.asString(properties.urlExpression, instance) {
      case Fails => return Failure(EvaluationFailure(properties.urlExpression));
      case Null => return Failure(NullUri(properties.urlExpression));
      case Value(u) => uri := u;
    }
    var instanceForEval := ForEval(instance, properties);
    var predicates := CopyDefinitions(ev, instanceForEval, properties.predicates);
    if predicates.Failure? {
      return Failure(predicates.error);
    }
    var filters := CopyDefinitions(ev, instanceForEval, properties.filters);
    if filters.Failure? {
      return Failure(filters.error);
    }
    return Success(RouteDefinition(id, uri, predicates.value, filters.value));
  }

  // ---------------------------------------------------------------------------
  // The pipeline
  // ---------------------------------------------------------------------------

  /** The first two stages: empty groups dropped, and the first instance of
      each remaining group taken. */
  function Representatives(groups: seq<seq<ServiceInstance>>): (reps: seq<ServiceInstance>)
    ensures |reps| <= |groups|
    ensures (forall i :: 0 <= i < |groups| ==> groups[i] != []) ==>
      |reps| == |groups| && forall i :: 0 <= i < |groups| ==> reps[i] == groups[i][0]
  {
    if groups == [] then []
    else (if groups[0] == [] then [] else [groups[0][0]]) + Representatives(groups[1..])
  }

  /** An empty group contributes no representative. */
  lemma RepresentativesEmptyGroup()
    ensures var empty: seq<ServiceInstance> := []; Representatives([empty]) == []
  {
    var empty: seq<ServiceInstance> := [];
    assert [empty][1..] == [];
  }

  /** A non-empty group contributes exactly its first instance. */
  lemma RepresentativesNonEmptyGroup(first: ServiceInstance, rest: seq<ServiceInstance>)
    ensures Representatives([[first] + rest]) == [first]
  {
    assert [[first] + rest][1..] == [];
  }

  /** Groups are handled one after the other: the representatives of a
      concatenation are those of each part, in order. */
  lemma {:induction false} RepresentativesAppend(a: seq<seq<ServiceInstance>>, b: seq<seq<ServiceInstance>>)
    ensures Representatives(a + b) == Representatives(a) + Representatives(b)
  {
    if a == [] {
      assert a + b == b;
    } else {
      assert (a + b)[0] == a[0];
      assert (a + b)[1..] == a[1..] + b;
      RepresentativesAppend(a[1..], b);
      var head := if a[0] == [] then [] else [a[0][0]];
      assert head + (Representatives(a[1..]) + Representatives(b)) ==
        (head + Representatives(a[1..])) + Representatives(b);
    }
  }

  /** Only whether a group is empty and its first instance matter: groups that
      agree on those give the same representatives. */
  lemma {:induction false} RepresentativesSeeOnlyFirst(g1: seq<seq<ServiceInstance>>, g2: seq<seq<ServiceInstance>>)
    requires |g1| == |g2|
    requires forall i :: 0 <= i < |g1| ==> (g1[i] == [] <==> g2[i] == [])
    requires forall i :: 0 <= i < |g1| && g1[i] != [] && g2[i] != [] ==> g1[i][0] == g2[i][0]
    ensures Representatives(g1) == Representatives(g2)
  {
    if g1 != [] {
      RepresentativesSeeOnlyFirst(g1[1..], g2[1..]);
    }
  }

  /** The last two stages, per instance in order: the include filter, then the
      build. The first error in that order aborts the pass. */
  function RouteDefinitionsFor(locator: Locator, ev: Evaluator, instances: seq<ServiceInstance>)
    : (r: Result<seq<RouteDefinition>, SynthesisError>)
    ensures r.Success? ==> |r.value| <= |instances|
  {
    if instances == [] then Success([])
    else
      match Include(locator.properties, ev, instances[0])
      case Failure(e) => Failure(e)
      case Success(included) =>
        if !included then RouteDefinitionsFor(locator, ev, instances[1..])
        else
          match RouteFor(locator, ev, instances[0])
          case Failure(e) => Failure(e)
          case Success(route) =>
            match RouteDefinitionsFor(locator, ev, instances[1..])
            case Failure(e) => Failure(e)
            case Success(routes) => Success([route] + routes)
  }

  /** An instance goes through without error: its include check succeeds and,
      if it is included, its route builds. */
  predicate InstanceSucceeds(locator: Locator, ev: Evaluator, instance: ServiceInstance) {
    match Include(locator.properties, ev, instance)
    case Failure(_) => false
    case Success(included) => !included || RouteFor(locator, ev, instance).Success?
  }

  /** Every instance of the sequence goes through without error. */
  predicate AllSucceed(locator: Locator, ev: Evaluator, instances: seq<ServiceInstance>) {
    forall k :: 0 <= k < |instances| ==> InstanceSucceeds(locator, ev, instances[k])
  }

  /** A single instance yields no route when excluded and its own route when
      included. */
  lemma RouteDefinitionsForOne(locator: Locator, ev: Evaluator, instance: ServiceInstance)
    ensures Include(locator.properties, ev, instance) == Success(false) ==>
      RouteDefinitionsFor(locator, ev, [instance]) == Success([])
    ensures Include(locator.properties, ev, instance) == Success(true) ==>
      RouteDefinitionsFor(locator, ev, [instance]) ==
        match RouteFor(locator, ev, instance)
        case Success(route) => Success([route])
        case Failure(e) => Failure(e)
    ensures Include(locator.properties, ev, instance).Failure? ==>
      RouteDefinitionsFor(locator, ev, [instance]) == Failure(Include(locator.properties, ev, instance).error)
  {
    assert [instance][1..] == [];
    assert [instance][0] == instance;
    assert RouteDefinitionsFor(locator, ev, []) == Success([]);
    if RouteFor(locator, ev, instance).Success? {
      var route := RouteFor(locator, ev, instance).value;
      assert [route] + [] == [route];
    }
  }

  /** The pass over a concatenation: an error in the first part aborts the
      whole pass; otherwise the routes of the two parts follow each other in
      input order. */
  lemma {:induction false} RouteDefinitionsForAppend(locator: Locator, ev: Evaluator, a: seq<ServiceInstance>, b: seq<ServiceInstance>)
    ensures RouteDefinitionsFor(locator, ev, a).Failure? ==>
      RouteDefinitionsFor(locator, ev, a + b) == RouteDefinitionsFor(locator, ev, a)
    ensures RouteDefinitionsFor(locator, ev, a).Success? ==>
      RouteDefinitionsFor(locator, ev, a + b) ==
        match RouteDefinitionsFor(locator, ev, b)
        case Failure(e) => Failure(e)
        case Success(routes) => Success(RouteDefinitionsFor(locator, ev, a).value + routes)
  {
    if a == [] {
      assert a + b == b;
      if RouteDefinitionsFor(locator, ev, b).Success? {
        assert [] + RouteDefinitionsFor(locator, ev, b).value == RouteDefinitionsFor(locator, ev, b).value;
      }
    } else {
      var instance := a[0];
      assert (a + b)[0] == instance;
      assert (a + b)[1..] == a[1..] + b;
      RouteDefinitionsForAppend(locator, ev, a[1..], b);
      match Include(locator.properties, ev, instance) {
        case Failure(_) =>
        case Success(included) =>
          if included {
            match RouteFor(locator, ev, instance) {
              case Failure(_) =>
              case Success(route) =>
                var tail := RouteDefinitionsFor(locator, ev, a[1..]);
                var rest := RouteDefinitionsFor(locator, ev, b);
                if tail.Success? && rest.Success? {
                  assert [route] + (tail.value + rest.value) == ([route] + tail.value) + rest.value;
                }
            }
          }
      }
    }
  }

  /** The pass succeeds exactly when every instance does: one failing
      template anywhere aborts the synthesis of every route. */
  lemma {:induction false} RouteDefinitionsForSucceeds(locator: Locator, ev: Evaluator, instances: seq<ServiceInstance>)
    ensures RouteDefinitionsFor(locator, ev, instances).Success? <==> AllSucceed(locator, ev, instances)
  {
    if instances != [] {
      RouteDefinitionsForSucceeds(locator, ev, instances[1..]);
      assert forall k :: 1 <= k < |instances| ==> instances[k] == instances[1..][k - 1];
    }
  }

  /** When every instance is included (on the fast path, or because the
      include expression yields true for each) and the pass succeeds (see
      RouteDefinitionsForSucceeds), every instance yields exactly its own
      route, in order. */
  lemma {:induction false} RouteDefinitionsForIncludesAll(locator: Locator, ev: Evaluator, instances: seq<ServiceInstance>)
    requires forall k :: 0 <= k < |instances| ==> Include(locator.properties, ev, instances[k]) == Success(true)
    ensures RouteDefinitionsFor(locator, ev, instances).Success? ==>
      var routes := RouteDefinitionsFor(locator, ev, instances).value;
      |routes| == |instances| &&
      forall k :: 0 <= k < |instances| ==> RouteFor(locator, ev, instances[k]) == Success(routes[k])
  {
    if instances != [] {
      assert forall k :: 0 <= k < |instances[1..]| ==> instances[1..][k] == instances[k + 1];
      RouteDefinitionsForIncludesAll(locator, ev, instances[1..]);
    }
  }

  /** getRouteDefinitions: the include (when present) and URL templates are
      parsed up front, then every group goes through the pipeline. */
  function GetRouteDefinitions(locator: Locator, ev: Evaluator, serviceInstances: seq<seq<ServiceInstance>>)
    : (r: Result<seq<RouteDefinition>, SynthesisError>)
    ensures r.Success? ==> |r.value| <= |serviceInstances|
  {
    var properties := locator.properties;
    if properties.includeExpression.Some? && !ev.parses(properties.includeExpression.value) then
      Failure(ParseFailure(properties.includeExpression.value))
    else if !ev.parses(properties.urlExpression) then
      Failure(ParseFailure(properties.urlExpression))
    else
      RouteDefinitionsFor(locator, ev, Representatives(serviceInstances))
  }

  /** Synthesis succeeds exactly when both up-front templates parse and every
      group's first instance goes through without error. */
  lemma GetRouteDefinitionsSucceeds(locator: Locator, ev: Evaluator, serviceInstances: seq<seq<ServiceInstance>>)
    ensures
      var reps := Representatives(serviceInstances);
      GetRouteDefinitions(locator, ev, serviceInstances).Success? <==>
        && (locator.properties.includeExpression.Some? ==> ev.parses(locator.properties.includeExpression.value))
        && ev.parses(locator.properties.urlExpression)
        && AllSucceed(locator, ev, reps)
  {
    var reps := Representatives(serviceInstances);
    var properties := locator.properties;
    var r := GetRouteDefinitions(locator, ev, serviceInstances);
    if properties.includeExpression.Some? && !ev.parses(properties.includeExpression.value) {
      assert r.Failure?;
    } else if !ev.parses(properties.urlExpression) {
      assert r.Failure?;
    } else {
      assert r == RouteDefinitionsFor(locator, ev, reps);
      RouteDefinitionsForSucceeds(locator, ev, reps);
    }
  }

  /** With the include check on its fast path, or yielding true for every
      group's first instance, and when the pass succeeds (see
      GetRouteDefinitionsSucceeds), every non-empty group gets
      exactly one route, in discovery order, built from its first instance and
      with id the prefix followed by that instance's service id; empty groups
      get none. With no empty group there is one route per group. */
  lemma EveryServiceGetsOneRoute(locator: Locator, ev: Evaluator, serviceInstances: seq<seq<ServiceInstance>>)
    requires || IncludesAll(locator.properties.includeExpression)
             || var reps := Representatives(serviceInstances);
                forall k :: 0 <= k < |reps| ==> Include(locator.properties, ev, reps[k]) == Success(true)
    ensures GetRouteDefinitions(locator, ev, serviceInstances).Success? ==>
      var reps := Representatives(serviceInstances);
      var routes := GetRouteDefinitions(locator, ev, serviceInstances).value;
      && |routes| == |reps|
      && (forall k :: 0 <= k < |reps| ==>
            RouteFor(locator, ev, reps[k]) == Success(routes[k]) &&
            routes[k].id == locator.routeIdPrefix + reps[k].serviceId)
      && ((forall i :: 0 <= i < |serviceInstances| ==> serviceInstances[i] != []) ==>
            |routes| == |serviceInstances| &&
            forall i :: 0 <= i < |serviceInstances| ==> RouteFor(locator, ev, serviceInstances[i][0]) == Success(routes[i]))
  {
    var reps := Representatives(serviceInstances);
    if !IncludesAll(locator.properties.includeExpression) {
      assert forall k :: 0 <= k < |reps| ==> Include(locator.properties, ev, reps[k]) == Success(true);
    }
    RouteDefinitionsForIncludesAll(locator, ev, reps);
    forall k | 0 <= k < |reps|
      ensures RouteFor(locator, ev, reps[k]).Success? ==>
        RouteFor(locator, ev, reps[k]).value.id == locator.routeIdPrefix + reps[k].serviceId
    {
      RouteForShape(locator, ev, reps[k]);
    }
  }

}
