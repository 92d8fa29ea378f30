/** The code block processor registration of src/main.ts: every bundled
    language contributes its name and its aliases, and each alias is
    registered once, by the first language that claims it, unless it is one
    of the names the host cannot take. The registry of bundled languages is
    an input; loading each entry is modelled by its list of versions. */
module Registration {
  import opened Wrappers

  /** One version of a grammar: its name and its optional aliases. */
  datatype LanguageInfo = LanguageInfo(name: string, aliases: Option<seq<string>>)

  /** An entry of the bundled language registry: its key and the versions
      its loader yields. */
  datatype BundledEntry = BundledEntry(shikiLanguage: string, versions: seq<LanguageInfo>)

  /** A code block processor: the alias it answers to and the grammar it
      highlights with. */
  datatype Processor = Processor(alias: string, shikiLanguage: string)

  /** `languageNameBlacklist`. */
  const Blacklist: set<string> := {"c++", "c#", "f#"}

  /** `.default.at(-1)`: the last version, if there is one. */
  function Latest(entry: BundledEntry): (r: Option<LanguageInfo>)
    ensures r.None? <==> entry.versions == []
    ensures r.Some? ==> r.value == entry.versions[|entry.versions| - 1]
  {
    if entry.versions == [] then None else Some(entry.versions[|entry.versions| - 1])
  }

  /** The aliases an entry claims, name first, each paired with the entry's key. */
  function Claims(entry: BundledEntry): (r: seq<Processor>)
    ensures Latest(entry).None? ==> r == []
    ensures Latest(entry).Some? ==>
              var l := Latest(entry).value;
              var aliases := l.aliases.GetOr([]);
              && |r| == 1 + |aliases|
              && r[0] == Processor(l.name, entry.shikiLanguage)
              && forall k :: 0 < k < |r| ==> r[k] == Processor(aliases[k - 1], entry.shikiLanguage)
  {
    match Latest(entry)
    case None => []
    case Some(l) =>
      var aliases := [l.name] + l.aliases.GetOr([]);
      seq(|aliases|, k requires 0 <= k < |aliases| => Processor(aliases[k], entry.shikiLanguage))
  }

  /** Every claim of a prefix of the registry, in order. */
  function AllClaims(entries: seq<BundledEntry>): seq<Processor>
    decreases |entries|
  {
    if entries == [] then [] else AllClaims(entries[..|entries| - 1]) + Claims(entries[|entries| - 1])
  }

  function AliasSet(ps: seq<Processor>): set<string> {
    set k | 0 <= k < |ps| :: ps[k].alias
  }

  /** The claims kept: one whose alias is blacklisted or already taken by an
      earlier kept claim is dropped. */
  function KeepFirst(claims: seq<Processor>): seq<Processor>
    decreases |claims|
  {
    if claims == [] then []
    else
      var kept := KeepFirst(claims[..|claims| - 1]);
      var c := claims[|claims| - 1];
      if c.alias in AliasSet(kept) || c.alias in Blacklist then kept else kept + [c]
  }

  /** `registerCodeBlockProcessors`: the processors registered, in order. */
  method RegisterCodeBlockProcessors(entries: seq<BundledEntry>) returns (registered: seq<Processor>)
    ensures registered == KeepFirst(AllClaims(entries))
  {
    var registeredLanguages: set<string> := {};
    registered := [];
    for i := 0 to |entries|
      invariant registered == KeepFirst(AllClaims(entries[..i]))
      invariant registeredLanguages == AliasSet(registered)
    {
      assert entries[..i + 1][..i] == entries[..i];
      assert AllClaims(entries[..i + 1]) == AllClaims(entries[..i]) + Claims(entries[i]);
      registered, registeredLanguages := RegisterEntry(entries[i], registered, registeredLanguages, AllClaims(entries[..i]));
    }
    assert entries[..|entries|] == entries;
  }

  /** The body of the outer loop for one registry entry: an entry without a
      version is skipped; otherwise its name and aliases are registered in
      order, each unless taken or blacklisted. */
  method RegisterEntry(entry: BundledEntry, registered0: seq<Processor>, registeredLanguages0: set<string>, ghost done: seq<Processor>)
    returns (registered: seq<Processor>, registeredLanguages: set<string>)
    requires registered0 == KeepFirst(done) && registeredLanguages0 == AliasSet(registered0)
    ensures registered == KeepFirst(done + Claims(entry)) && registeredLanguages == AliasSet(registered)
  {
    registered, registeredLanguages := registered0, registeredLanguages0;
    var language := Latest(entry);
    if language.None? {
      assert done + Claims(entry) == done;
      return;
    }
    var languageAliases := [language.value.name] + language.value.aliases.GetOr([]);
    ghost var claims := Claims(entry);
    assert |claims| == |languageAliases|;
    assert forall k :: 0 <= k < |claims| ==> claims[k] == Processor(languageAliases[k], entry.shikiLanguage);
    ghost var prefix := done;
    assert done + claims[..0] == done;
    for j := 0 to |languageAliases|
      invariant prefix == done + claims[..j]
      invariant registered == KeepFirst(prefix)
      invariant registeredLanguages == AliasSet(registered)
    {
      var p := Processor(languageAliases[j], entry.shikiLanguage);
      assert claims[..j + 1] == claims[..j] + [p];
      registered, registeredLanguages := RegisterAlias(p, registered, registeredLanguages, prefix);
      prefix := prefix + [p];
    }
    assert claims[..|languageAliases|] == claims;
  }

  /** The body of the inner loop: an alias already taken or blacklisted is
      skipped, any other is taken and registered. */
  method RegisterAlias(p: Processor, registered0: seq<Processor>, registeredLanguages0: set<string>, ghost prefix: seq<Processor>)
    returns (registered: seq<Processor>, registeredLanguages: set<string>)
    requires registered0 == KeepFirst(prefix) && registeredLanguages0 == AliasSet(registered0)
    ensures registered == KeepFirst(prefix + [p]) && registeredLanguages == AliasSet(registered)
  {
    KeepFirstStep(prefix, p);
    if p.alias in registeredLanguages0 || p.alias in Blacklist {
      return registered0, registeredLanguages0;
    }
    AliasSetAppend(registered0, p);
    registered := registered0 + [p];
    registeredLanguages := registeredLanguages0 + {p.alias};
  }

  /** One more claim is kept exactly when its alias is free and allowed. */
  lemma KeepFirstStep(claims: seq<Processor>, c: Processor)
    ensures var kept := KeepFirst(claims);
            KeepFirst(claims + [c]) == if c.alias in AliasSet(kept) || c.alias in Blacklist then kept else kept + [c]
  {
    assert (claims + [c])[..|claims|] == claims;
  }

  lemma AliasSetAppend(ps: seq<Processor>, p: Processor)
    ensures AliasSet(ps + [p]) == AliasSet(ps) + {p.alias}
  {
    var qs := ps + [p];
    assert qs[|ps|].alias == p.alias;
    forall a | a in AliasSet(ps)
      ensures a in AliasSet(qs)
    {
      var k :| 0 <= k < |ps| && ps[k].alias == a;
      assert qs[k].alias == a;
    }
  }

  predicate DistinctAliases(ps: seq<Processor>) {
    forall p, q :: 0 <= p < q < |ps| ==> ps[p].alias != ps[q].alias
  }

  /** Each alias is registered at most once. */
  lemma {:induction false} KeepFirstDistinct(claims: seq<Processor>)
    ensures DistinctAliases(KeepFirst(claims))
    decreases |claims|
  {
    if claims != [] {
      var kept := KeepFirst(claims[..|claims| - 1]);
      KeepFirstDistinct(claims[..|claims| - 1]);
      var c := claims[|claims| - 1];
      if !(c.alias in AliasSet(kept) || c.alias in Blacklist) {
        var r := kept + [c];
        forall p, q | 0 <= p < q < |r|
          ensures r[p].alias != r[q].alias
        {
          assert r[p] == kept[p];
          assert kept[p].alias in AliasSet(kept);
          if q < |kept| {
            assert r[q] == kept[q];
            assert kept[p].alias != kept[q].alias;
          } else {
            assert r[q] == c;
            assert c.alias != kept[p].alias;
          }
        }
      }
    }
  }

  /** An alias is registered exactly when some language claims it and it is
      not blacklisted; only claims are registered. */
  lemma {:induction false} KeepFirstMembers(claims: seq<Processor>)
    ensures forall a :: a in AliasSet(KeepFirst(claims)) <==> a in AliasSet(claims) && a !in Blacklist
    ensures forall p :: p in KeepFirst(claims) ==> p in claims
    decreases |claims|
  {
    if claims != [] {
      var init := claims[..|claims| - 1];
      var kept := KeepFirst(init);
      var c := claims[|claims| - 1];
      KeepFirstMembers(init);
      assert claims == init + [c];
      AliasSetAppend(init, c);
      if !(c.alias in AliasSet(kept) || c.alias in Blacklist) {
        AliasSetAppend(kept, c);
      }
    }
  }

  /** The first claim of an alias that is not blacklisted is the one
      registered: the language name before its own aliases, an earlier
      language before a later one. */
  lemma {:induction false} KeepFirstFirstWins(claims: seq<Processor>, k: nat)
    requires k < |claims| && claims[k].alias !in Blacklist
    requires forall j :: 0 <= j < k ==> claims[j].alias != claims[k].alias
    ensures claims[k] in KeepFirst(claims)
    decreases |claims|
  {
    var init := claims[..|claims| - 1];
    var kept := KeepFirst(init);
    if k < |claims| - 1 {
      KeepFirstFirstWins(init, k);
    } else {
      KeepFirstMembers(init);
      assert claims[k].alias !in AliasSet(init) by {
        forall j | 0 <= j < |init|
          ensures init[j].alias != claims[k].alias
        {
          assert init[j] == claims[j];
        }
      }
    }
  }

  /** The registration as a whole: distinct aliases, none blacklisted, each
      registered with the first language claiming it, and every claimed
      alias that is not blacklisted registered. */
  lemma RegistrationCorrect(entries: seq<BundledEntry>)
    ensures var r := KeepFirst(AllClaims(entries));
            && DistinctAliases(r)
            && (forall p :: 0 <= p < |r| ==> r[p].alias !in Blacklist && r[p] in AllClaims(entries))
            && (forall a :: a in AliasSet(AllClaims(entries)) && a !in Blacklist ==> a in AliasSet(r))
  {
    var cs := AllClaims(entries);
    KeepFirstDistinct(cs);
    KeepFirstMembers(cs);
    var r := KeepFirst(cs);
    forall p | 0 <= p < |r|
      ensures r[p].alias !in Blacklist
    {
      assert r[p].alias in AliasSet(r);
    }
  }
}
