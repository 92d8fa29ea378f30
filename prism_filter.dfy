/** The element filter of src/PrismPlugin.ts (`filterHighlightAllPlugin`):
    a list of filters, each accepting or rejecting an element, which all
    have to accept an element for Prism to highlight it. Prism, the DOM and
    the user's conditions are the environment: an element's language, the
    CSS selector test, the set of loaded grammars and the value of each
    condition come in as an `Env`. */
module PrismFilter {
  import opened Wrappers

  datatype Element = Element(id: nat)

  /** A condition handed to `add` or `reject.add`, by identity. */
  datatype Condition = Condition(id: nat)

  datatype Env = Env(
    languageOf: Element -> string,
    matches: (Element, string) -> bool,
    holds: (Condition, Element, string) -> bool,
    knownLanguages: set<string>)

  /** The closures pushed onto `filters`. */
  datatype Filter =
    | Accept(cond: Condition)
    | Reject(cond: Condition)
    | Selector(selector: string)
    | RejectSelector(selector: string)
    | Known

  /** The loading script's attributes; an attribute that is absent or empty
      is not used. */
  datatype Script = Script(filterKnownAttr: bool, filterSelector: Option<string>, rejectSelector: Option<string>)

  /** One filter on one element. `Known` reads the `filterKnown` setting
      when it runs, not when it is added. */
  predicate Eval(f: Filter, env: Env, filterKnown: bool, e: Element) {
    match f
    case Accept(c) => env.holds(c, e, env.languageOf(e))
    case Reject(c) => !env.holds(c, e, env.languageOf(e))
    case Selector(s) => env.matches(e, s)
    case RejectSelector(s) => !env.matches(e, s)
    case Known => !filterKnown || env.languageOf(e) in env.knownLanguages
  }

  /** Every filter accepts the element. */
  predicate AllAccept(filters: seq<Filter>, env: Env, filterKnown: bool, e: Element) {
    forall i :: 0 <= i < |filters| ==> Eval(filters[i], env, filterKnown, e)
  }

  /** `env.elements.filter(combinedFilter)`. */
  function Kept(filters: seq<Filter>, env: Env, filterKnown: bool, elements: seq<Element>): (r: seq<Element>)
    ensures |r| <= |elements|
    ensures forall x :: x in r <==> x in elements && AllAccept(filters, env, filterKnown, x)
    decreases |elements|
  {
    if elements == [] then []
    else
      var rest := Kept(filters, env, filterKnown, elements[1..]);
      assert forall x :: x in elements <==> x == elements[0] || x in elements[1..];
      if AllAccept(filters, env, filterKnown, elements[0]) then [elements[0]] + rest else rest
  }

  /** The filter keeps the original order: filtering a concatenation is
      concatenating the filtered parts. */
  lemma {:induction false} KeptConcat(filters: seq<Filter>, env: Env, filterKnown: bool, a: seq<Element>, b: seq<Element>)
    ensures Kept(filters, env, filterKnown, a + b) == Kept(filters, env, filterKnown, a) + Kept(filters, env, filterKnown, b)
    decreases |a|
  {
    if a == [] {
      assert a + b == b;
    } else {
      assert (a + b)[0] == a[0];
      assert (a + b)[1..] == a[1..] + b;
      KeptConcat(filters, env, filterKnown, a[1..], b);
    }
  }

  /** Adding a filter conjoins it with the ones before. */
  lemma AllAcceptAppend(filters: seq<Filter>, f: Filter, env: Env, filterKnown: bool, e: Element)
    ensures AllAccept(filters + [f], env, filterKnown, e) <==> AllAccept(filters, env, filterKnown, e) && Eval(f, env, filterKnown, e)
  {
    var fs := filters + [f];
    assert fs[|filters|] == f;
    if AllAccept(filters, env, filterKnown, e) && Eval(f, env, filterKnown, e) {
      forall i | 0 <= i < |fs|
        ensures Eval(fs[i], env, filterKnown, e)
      {
        if i < |filters| {
          assert fs[i] == filters[i];
        }
      }
    }
    if AllAccept(fs, env, filterKnown, e) {
      forall i | 0 <= i < |filters|
        ensures Eval(filters[i], env, filterKnown, e)
      {
        assert fs[i] == filters[i];
      }
    }
  }

  /** `reject.add` and `reject.addSelector` accept exactly what `add` and
      `addSelector` with the same argument reject; with `filterKnown` off
      the known-language filter accepts everything. */
  lemma RejectNegates(c: Condition, s: string, env: Env, filterKnown: bool, e: Element)
    ensures Eval(Reject(c), env, filterKnown, e) <==> !Eval(Accept(c), env, filterKnown, e)
    ensures Eval(RejectSelector(s), env, filterKnown, e) <==> !Eval(Selector(s), env, filterKnown, e)
    ensures !filterKnown ==> Eval(Known, env, filterKnown, e)
  {
  }

  class FilterHighlightAll {
    /** Whether the plugin ran to the end and hooked into Prism. */
    var installed: bool
    var filters: seq<Filter>
    /** `config.filterKnown`. */
    var filterKnown: bool

    constructor ()
      ensures !installed && filters == [] && !filterKnown
    {
      installed := false;
      filters := [];
      filterKnown := false;
    }

    /** `filterHighlightAllPlugin`: without Prism or a document nothing is
        set up; otherwise the known-language filter comes first, then the
        script's selector and reject selector when given. */
    method Install(prismDefined: bool, documentDefined: bool, script: Option<Script>)
      requires !installed && filters == []
      modifies this
      ensures !(prismDefined && documentDefined) ==> !installed && filters == [] && filterKnown == old(filterKnown)
      ensures prismDefined && documentDefined ==>
                && installed
                && filterKnown == (script.Some? && script.value.filterKnownAttr)
                && filters == [Known] + ScriptFilters(script)
    {
      if !prismDefined || !documentDefined {
        return;
      }
      filterKnown := script.Some? && script.value.filterKnownAttr;
      Add(Known);
      if script.Some? {
        var attr := script.value.filterSelector;
        if attr.Some? && attr.value != "" {
          Add(Selector(attr.value));
        }
        attr := script.value.rejectSelector;
        if attr.Some? && attr.value != "" {
          Add(RejectSelector(attr.value));
        }
      }
      installed := true;
    }

    /** `add`, `addSelector`, `reject.add` and `reject.addSelector`: the
        filter is pushed at the end. */
    method Add(f: Filter)
      modifies this
      ensures filters == old(filters) + [f]
      ensures installed == old(installed) && filterKnown == old(filterKnown)
    {
      filters := filters + [f];
    }

    /** `combinedFilter`: the filters are tried in order and the first one
        that refuses ends the search. */
    method CombinedFilter(env: Env, e: Element) returns (r: bool)
      ensures r <==> forall i :: 0 <= i < |filters| ==> Eval(filters[i], env, filterKnown, e)
      ensures filters == [] ==> r
    {
      for i := 0 to |filters|
        invariant forall j :: 0 <= j < i ==> Eval(filters[j], env, filterKnown, e)
      {
        if !Eval(filters[i], env, filterKnown, e) {
          return false;
        }
      }
      return true;
    }

    /** The `before-all-elements-highlight` hook. */
    function Hook(env: Env, elements: seq<Element>): (r: seq<Element>)
      reads this
      ensures forall x :: x in r <==> x in elements && AllAccept(filters, env, filterKnown, x)
    {
      Kept(filters, env, filterKnown, elements)
    }
  }

  function ScriptFilters(script: Option<Script>): seq<Filter> {
    match script
    case None => []
    case Some(s) =>
      (if s.filterSelector.Some? && s.filterSelector.value != "" then [Selector(s.filterSelector.value)] else []) +
      (if s.rejectSelector.Some? && s.rejectSelector.value != "" then [RejectSelector(s.rejectSelector.value)] else [])
  }

  /** Without a script attribute, an installed plugin highlights exactly
      what it was given. */
  lemma InstalledDefaultKeepsAll(env: Env, elements: seq<Element>)
    ensures Kept([Known], env, false, elements) == elements
  {
    KeptAll([Known], env, false, elements);
  }

  lemma {:induction false} KeptAll(filters: seq<Filter>, env: Env, filterKnown: bool, elements: seq<Element>)
    requires forall x :: x in elements ==> AllAccept(filters, env, filterKnown, x)
    ensures Kept(filters, env, filterKnown, elements) == elements
    decreases |elements|
  {
    if elements != [] {
      assert elements[0] in elements;
      assert forall x :: x in elements[1..] ==> x in elements;
      KeptAll(filters, env, filterKnown, elements[1..]);
    }
  }
}
