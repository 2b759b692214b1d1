/**
 Secret keys: printed by the operator (il-operator/controller/codegen/secret/secret.go), taken
 apart again by the API (api/src/secrets/secrets.service.ts).
 */
module SecretKeys {
  import opened Strings
  import opened Types
  import opened Labels
  import Regex

  datatype Identifier = Identifier(company: string, team: string, environment: string, component: string)

  datatype KeyResult = Key(key: string) | MissingMeta | InvalidScope

  function OrgKey(company: string, name: string): string {
    "/" + company + "/" + name
  }

  function TeamKey(company: string, team: string, name: string): string {
    "/" + company + "/" + team + "/" + name
  }

  function EnvironmentKey(company: string, team: string, environment: string, name: string): string {
    "/" + company + "/" + team + "/" + environment + "/" + name
  }

  function ComponentKey(company: string, team: string, environment: string, component: string, name: string): string {
    "/" + company + "/" + team + "/" + environment + "/" + component + "/" + name
  }

  /** GenerateKey, with its scopes as the strings they are. */
  function GenerateKey(id: Identifier, name: string, scope: string): KeyResult {
    if id.company == "" then MissingMeta
    else if scope == "org" then Key(OrgKey(id.company, name))
    else if scope == "team" then
      if id.team == "" then MissingMeta else Key(TeamKey(id.company, id.team, name))
    else if scope == "environment" then
      if id.team == "" || id.environment == "" then MissingMeta
      else Key(EnvironmentKey(id.company, id.team, id.environment, name))
    else if scope == "component" then
      if id.team == "" || id.environment == "" || id.component == "" then MissingMeta
      else Key(ComponentKey(id.company, id.team, id.environment, id.component, name))
    else InvalidScope
  }

  /** What a key names: the parts of the scope that count, and the secret. */
  function ScopeParts(id: Identifier, scope: string): seq<string> {
    if scope == "org" then []
    else if scope == "team" then [id.team]
    else if scope == "environment" then [id.team, id.environment]
    else if scope == "component" then [id.team, id.environment, id.component]
    else []
  }

  predicate SlashFree(parts: seq<string>) {
    forall p | p in parts :: '/' !in p
  }

  ghost predicate Printable(id: Identifier, name: string, scope: string) {
    GenerateKey(id, name, scope).Key? && SlashFree([id.company] + ScopeParts(id, scope) + [name])
  }

  /******* The readers *******/

  /** mapToKeyValue: the pop of an empty list gives no value. */
  function MapToKeyValue(name: string): (string, Option<string>) {
    var split := Split(name, '/');
    var tokens := if |split| <= 2 then [] else split[2..];
    if tokens == [] then ("", None)
    else (Join(tokens[..|tokens| - 1], ':'), Some(tokens[|tokens| - 1]))
  }

  /** mapToEnvironments: environment and team of a five-token name. */
  function MapToEnvironments(name: string): Option<(string, string)> {
    var tokens := Split(name, '/');
    if |tokens| == 5 then Some((tokens[3], tokens[2])) else None
  }

  /** getPath */
  function GetPath(org: string, path: string): string {
    if path == "" then "/" + org
    else "/" + org + "/" + (if path[0] == '/' then path[1..] else path)
  }

  /** The map getEnvironments fills from all pages: environment to team, later keys over earlier ones. */
  function EnvironmentsOf(names: seq<string>): map<string, string> {
    if names == [] then map[]
    else
      var before := EnvironmentsOf(names[..|names| - 1]);
      match MapToEnvironments(names[|names| - 1])
      case None => before
      case Some(pair) => before[pair.0 := pair.1]
  }

  function Flatten(pages: seq<seq<string>>): seq<string> {
    if pages == [] then [] else Flatten(pages[..|pages| - 1]) + pages[|pages| - 1]
  }

  lemma EnvironmentsStep(names: seq<string>, name: string)
    ensures EnvironmentsOf(names + [name]) ==
            match MapToEnvironments(name)
            case None => EnvironmentsOf(names)
            case Some(pair) => EnvironmentsOf(names)[pair.0 := pair.1]
  {
    assert (names + [name])[..|names|] == names;
  }

  lemma FlattenStep(pages: seq<seq<string>>, page: seq<string>)
    ensures Flatten(pages + [page]) == Flatten(pages) + page
  {
    assert (pages + [page])[..|pages|] == pages;
  }

  method ReadPage(page: seq<string>, before: map<string, string>, ghost read: seq<string>)
    returns (environments: map<string, string>)
    requires before == EnvironmentsOf(read)
    ensures environments == EnvironmentsOf(read + page)
  {
    hide EnvironmentsOf, MapToEnvironments;
    environments := before;
    assert read + page[..0] == read;
    for k := 0 to |page|
      invariant environments == EnvironmentsOf(read + page[..k])
    {
      EnvironmentsStep(read + page[..k], page[k]);
      assert read + page[..k + 1] == read + page[..k] + [page[k]];
      var found := MapToEnvironments(page[k]);
      if found.Some? {
        environments := environments[found.value.0 := found.value.1];
      }
    }
    assert page[..|page|] == page;
  }

  method GetEnvironments(pages: seq<seq<string>>) returns (environments: map<string, string>)
    ensures environments == EnvironmentsOf(Flatten(pages))
  {
    environments := map[];
    for p := 0 to |pages|
      invariant environments == EnvironmentsOf(Flatten(pages[..p]))
    {
      hide EnvironmentsOf, Flatten;
      FlattenStep(pages[..p], pages[p]);
      assert pages[..p + 1] == pages[..p] + [pages[p]];
      environments := ReadPage(pages[p], environments, Flatten(pages[..p]));
    }
    assert pages[..|pages|] == pages;
  }

  /******* When a key is printed, and which *******/

  /** A key is printed exactly for a known scope whose parts are all given. */
  lemma KeyPrintedIff(id: Identifier, name: string, scope: string)
    ensures GenerateKey(id, name, scope).Key? <==>
            && id.company != ""
            && (|| scope == "org"
                || (scope == "team" && id.team != "")
                || (scope == "environment" && id.team != "" && id.environment != "")
                || (scope == "component" && id.team != "" && id.environment != "" && id.component != ""))
    ensures GenerateKey(id, name, scope) == InvalidScope <==>
            id.company != "" && scope !in ["org", "team", "environment", "component"]
  {
  }

  /** The parts of the scope from the widest to the narrowest, then the name, each after a slash. */
  lemma PrintedKey(id: Identifier, name: string, scope: string)
    requires GenerateKey(id, name, scope).Key?
    ensures GenerateKey(id, name, scope).key == "/" + id.company +
            (if scope == "org" then ""
             else "/" + id.team +
                  (if scope == "team" then ""
                   else "/" + id.environment + (if scope == "environment" then "" else "/" + id.component)))
            + "/" + name
  {
  }

  /******* Printing and splitting *******/

  lemma JoinStep(part: string, rest: seq<string>)
    requires rest != []
    ensures Join([part] + rest, '/') == part + "/" + Join(rest, '/')
  {
    assert ([part] + rest)[1..] == rest;
  }

  /** What follows the company in a key. */
  function Tail(id: Identifier, name: string, scope: string): seq<string> {
    ScopeParts(id, scope) + [name]
  }

  lemma TeamTail(team: string, name: string)
    ensures Join([team, name], '/') == team + "/" + name
  {
    JoinStep(team, [name]);
    JoinOne(name);
    assert [team, name] == [team] + [name];
  }

  lemma EnvironmentTail(team: string, environment: string, name: string)
    ensures Join([team, environment, name], '/') == team + "/" + environment + "/" + name
  {
    TeamTail(environment, name);
    JoinStep(team, [environment, name]);
    hide Join;
    assert [team, environment, name] == [team] + [environment, name];
    assert team + "/" + (environment + "/" + name) == team + "/" + environment + "/" + name;
  }

  lemma ComponentTail(team: string, environment: string, component: string, name: string)
    ensures Join([team, environment, component, name], '/') == team + "/" + environment + "/" + component + "/" + name
  {
    EnvironmentTail(environment, component, name);
    JoinStep(team, [environment, component, name]);
    hide Join;
    assert [team, environment, component, name] == [team] + [environment, component, name];
    assert team + "/" + (environment + "/" + component + "/" + name) == team + "/" + environment + "/" + component + "/" + name;
  }

  lemma TailJoins(id: Identifier, name: string, scope: string)
    requires GenerateKey(id, name, scope).Key?
    ensures GenerateKey(id, name, scope).key == "/" + id.company + "/" + Join(Tail(id, name, scope), '/')
  {
    hide Join;
    if scope == "org" {
      JoinOne(name);
      assert Tail(id, name, scope) == [name];
    } else if scope == "team" {
      TeamTail(id.team, name);
      assert Tail(id, name, scope) == [id.team, name];
    } else if scope == "environment" {
      EnvironmentTail(id.team, id.environment, name);
      assert Tail(id, name, scope) == [id.team, id.environment, name];
    } else {
      ComponentTail(id.team, id.environment, id.component, name);
      assert Tail(id, name, scope) == [id.team, id.environment, id.component, name];
    }
    KeyAfterCompany(id, name);
  }

  lemma KeyAfterCompany(id: Identifier, name: string)
    ensures TeamKey(id.company, id.team, name) == "/" + id.company + "/" + (id.team + "/" + name)
    ensures EnvironmentKey(id.company, id.team, id.environment, name) ==
            "/" + id.company + "/" + (id.team + "/" + id.environment + "/" + name)
    ensures ComponentKey(id.company, id.team, id.environment, id.component, name) ==
            "/" + id.company + "/" + (id.team + "/" + id.environment + "/" + id.component + "/" + name)
  {
  }

  lemma JoinOne(part: string)
    ensures Join([part], '/') == part
  {
  }

  /** A printed key is the empty piece and the parts, joined by slashes: splitting gives them back. */
  lemma KeySplits(id: Identifier, name: string, scope: string)
    requires Printable(id, name, scope)
    ensures Split(GenerateKey(id, name, scope).key, '/') == ["", id.company] + ScopeParts(id, scope) + [name]
  {
    hide Split, Join, GenerateKey;
    var tail := Tail(id, name, scope);
    var parts := [""] + ([id.company] + tail);
    assert forall p | p in parts :: p == "" || p in [id.company] + ScopeParts(id, scope) + [name];
    SplitOfJoin(parts, '/');
    TailJoins(id, name, scope);
    JoinStep(id.company, tail);
    JoinStep("", [id.company] + tail);
    assert "" + "/" + (id.company + "/" + Join(tail, '/')) == "/" + id.company + "/" + Join(tail, '/');
    assert parts == ["", id.company] + ScopeParts(id, scope) + [name];
  }

  /** Equal keys come from equal scopes, equal scope parts and equal names. */
  lemma KeysAreInjective(a: Identifier, m: string, s: string, b: Identifier, n: string, t: string)
    requires Printable(a, m, s) && Printable(b, n, t)
    requires GenerateKey(a, m, s) == GenerateKey(b, n, t)
    ensures s == t && m == n && a.company == b.company && ScopeParts(a, s) == ScopeParts(b, t)
  {
    KeySplits(a, m, s);
    KeySplits(b, n, t);
    var x, y := ["", a.company] + ScopeParts(a, s) + [m], ["", b.company] + ScopeParts(b, t) + [n];
    assert |x| == |y| && x[1] == y[1] && x[|x| - 1] == y[|y| - 1];
    assert x[2..|x| - 1] == ScopeParts(a, s) && y[2..|y| - 1] == ScopeParts(b, t);
  }

  /** The API shows the scope path, joined by colons, and the name of every printed key. */
  lemma KeyValueRecovers(id: Identifier, name: string, scope: string)
    requires Printable(id, name, scope)
    ensures MapToKeyValue(GenerateKey(id, name, scope).key) == (Join(ScopeParts(id, scope), ':'), Some(name))
  {
    KeySplits(id, name, scope);
    var parts := ["", id.company] + ScopeParts(id, scope) + [name];
    assert parts[2..] == ScopeParts(id, scope) + [name];
    assert (ScopeParts(id, scope) + [name])[..|ScopeParts(id, scope)|] == ScopeParts(id, scope);
  }

  /** The colon-joined path in turn gives the scope back when no part has a colon. */
  lemma ScopePathRecovers(id: Identifier, name: string, scope: string)
    requires Printable(id, name, scope) && scope != "org"
    requires forall p | p in ScopeParts(id, scope) :: ':' !in p
    ensures Split(MapToKeyValue(GenerateKey(id, name, scope).key).0, ':') == ScopeParts(id, scope)
  {
    KeyValueRecovers(id, name, scope);
    SplitOfJoin(ScopeParts(id, scope), ':');
  }

  /** Exactly the keys of environment scope are taken for environments, and read correctly. */
  lemma EnvironmentKeysRecognised(id: Identifier, name: string, scope: string)
    requires Printable(id, name, scope)
    ensures var found := MapToEnvironments(GenerateKey(id, name, scope).key);
            && (found.Some? <==> scope == "environment")
            && (found.Some? ==> found.value == (id.environment, id.team))
  {
    KeySplits(id, name, scope);
  }

  /** Names that pass the name checks make printable keys, whatever the scope. */
  lemma ValidNamesPrintable(id: Identifier, name: string, scope: string)
    requires GenerateKey(id, name, scope).Key? && '/' !in name && '/' !in id.company
    requires forall p | p in ScopeParts(id, scope) :: Regex.Matches(NAME_REGEX, p)
    ensures Printable(id, name, scope)
    ensures forall p | p in ScopeParts(id, scope) :: ':' !in p
  {
    forall p | p in ScopeParts(id, scope) ensures '/' !in p && ':' !in p {
      LabelHasNoSeparator(p);
    }
  }

  /** With a slash in the name two scopes share a key, and the team's secret is taken for an environment. */
  lemma SlashConfusesScopes(id: Identifier, name: string)
    requires id.company != "" && id.team != "" && id.environment != ""
    ensures GenerateKey(id, id.environment + "/" + name, "team") == GenerateKey(id, name, "environment")
  {
    assert "/" + id.company + "/" + id.team + "/" + (id.environment + "/" + name) ==
           "/" + id.company + "/" + id.team + "/" + id.environment + "/" + name;
  }

  /** All parts of a key. */
  function KeyParts(id: Identifier, name: string, scope: string): seq<string> {
    [id.company] + ScopeParts(id, scope) + [name]
  }

  lemma KeyIsJoin(id: Identifier, name: string, scope: string)
    requires GenerateKey(id, name, scope).Key?
    ensures GenerateKey(id, name, scope).key == "/" + Join(KeyParts(id, name, scope), '/')
  {
    TailJoins(id, name, scope);
    var tail := Tail(id, name, scope);
    hide Join, GenerateKey;
    JoinStep(id.company, tail);
    assert KeyParts(id, name, scope) == [id.company] + tail;
    assert "/" + (id.company + "/" + Join(tail, '/')) == "/" + id.company + "/" + Join(tail, '/');
  }

  /** Whatever slashes there are: keys are equal exactly when their parts have the same pieces. */
  lemma KeysCollideIff(a: Identifier, m: string, s: string, b: Identifier, n: string, t: string)
    requires GenerateKey(a, m, s).Key? && GenerateKey(b, n, t).Key?
    ensures GenerateKey(a, m, s) == GenerateKey(b, n, t) <==>
            SplitAll(KeyParts(a, m, s), '/') == SplitAll(KeyParts(b, n, t), '/')
  {
    KeyIsJoin(a, m, s);
    KeyIsJoin(b, n, t);
    var x, y := KeyParts(a, m, s), KeyParts(b, n, t);
    hide Join, Split, SplitAll, GenerateKey, KeyParts;
    SplitOfAnyJoin(x, '/');
    SplitOfAnyJoin(y, '/');
    JoinOfSplit(Join(x, '/'), '/');
    JoinOfSplit(Join(y, '/'), '/');
    var j, k := Join(x, '/'), Join(y, '/');
    assert ("/" + j)[1..] == j && ("/" + k)[1..] == k;
  }

  lemma PiecesOfLast(parts: seq<string>, name: string)
    requires SlashFree(parts)
    ensures SplitAll(parts + [name], '/') == parts + Split(name, '/')
  {
    SplitAllFree(parts, [name], '/');
    assert SplitAll([name], '/') == Split(name, '/') + [];
  }

  lemma SamePieces(m: string, rest: seq<string>, n: string)
    requires SlashFree(rest)
    ensures Split(m, '/') == rest + Split(n, '/') <==> m == Join(rest + [n], '/')
  {
    hide Split, Join, SplitAll;
    PiecesOfLast(rest, n);
    SplitOfAnyJoin(rest + [n], '/');
    JoinOfSplit(m, '/');
    JoinOfSplit(Join(rest + [n], '/'), '/');
  }

  lemma PartsOfKey(id: Identifier, name: string, scope: string)
    requires SlashFree([id.company] + ScopeParts(id, scope))
    ensures SplitAll(KeyParts(id, name, scope), '/') == [id.company] + ScopeParts(id, scope) + Split(name, '/')
  {
    PiecesOfLast([id.company] + ScopeParts(id, scope), name);
  }

  /**
   With slashes in secret names only: two keys are equal exactly when one scope lies within the other and
   the name in the wider one spells out the rest of the narrower scope before the other name.
   */
  lemma SlashedNamesCollideIff(a: Identifier, m: string, s: string, b: Identifier, n: string, t: string)
    requires GenerateKey(a, m, s).Key? && GenerateKey(b, n, t).Key?
    requires SlashFree([a.company] + ScopeParts(a, s)) && SlashFree([b.company] + ScopeParts(b, t))
    requires |ScopeParts(a, s)| <= |ScopeParts(b, t)|
    ensures GenerateKey(a, m, s) == GenerateKey(b, n, t) <==>
            && a.company == b.company && ScopeParts(a, s) <= ScopeParts(b, t)
            && m == Join(ScopeParts(b, t)[|ScopeParts(a, s)|..] + [n], '/')
  {
    KeysCollideIff(a, m, s, b, n, t);
    PartsOfKey(a, m, s);
    PartsOfKey(b, n, t);
    var outer, inner := ScopeParts(a, s), ScopeParts(b, t);
    var rest := inner[|outer|..];
    assert forall p | p in rest :: p in inner && p in [b.company] + inner;
    SamePieces(m, rest, n);
    hide GenerateKey, ScopeParts, KeyParts, SplitAll, Split, Join, SlashFree;
    PrefixPieces(a.company, outer, Split(m, '/'), b.company, inner, Split(n, '/'));
  }

  lemma PrefixPieces(c: string, outer: seq<string>, x: seq<string>, d: string, inner: seq<string>, y: seq<string>)
    requires |outer| <= |inner|
    ensures [c] + outer + x == [d] + inner + y <==> c == d && outer <= inner && x == inner[|outer|..] + y
  {
    var u, v := [c] + outer + x, [d] + inner + y;
    var k := |outer|;
    assert u[0] == c && v[0] == d && u[1..][..k] == outer && v[1..][..k] == inner[..k];
    assert u[1..][k..] == x && v[1..][k..] == inner[k..] + y;
    assert u == [u[0]] + (u[1..][..k] + u[1..][k..]) && v == [v[0]] + (v[1..][..k] + v[1..][k..]);
  }

  /** A path given to the API addresses the key the operator prints, with or without a leading slash. */
  lemma PathAddressesKey(id: Identifier, name: string, scope: string)
    requires Printable(id, name, scope) && scope != "org"
    ensures var path := Join(ScopeParts(id, scope) + [name], '/');
            && GetPath(id.company, path) == GenerateKey(id, name, scope).key
            && GetPath(id.company, "/" + path) == GenerateKey(id, name, scope).key
  {
    TailJoins(id, name, scope);
    var tail := Tail(id, name, scope);
    var path := Join(tail, '/');
    assert id.team in [id.company] + ScopeParts(id, scope) + [name];
    assert path[0] == tail[0][0] == id.team[0];
    assert ("/" + path)[1..] == path;
  }

  /** Every path given to the API: below the organisation, with one leading slash dropped. */
  lemma PathCases(org: string, path: string)
    ensures GetPath(org, "") == "/" + org
    ensures path != "" && path[0] != '/' ==> GetPath(org, path) == "/" + org + "/" + path
    ensures GetPath(org, "/" + path) == "/" + org + "/" + path
  {
    assert ("/" + path)[0] == '/' && ("/" + path)[1..] == path;
  }

  /** A name with at most one slash has neither scope nor value. */
  lemma ShortNames(a: string, b: string)
    requires '/' !in a && '/' !in b
    ensures MapToKeyValue(a) == ("", None) && MapToKeyValue(a + ['/'] + b) == ("", None)
    ensures MapToEnvironments(a) == None && MapToEnvironments(a + ['/'] + b) == None
  {
    SplitFree(a, '/');
    SplitFirst(a, b, '/');
    SplitFree(b, '/');
  }

  /******* The environment list *******/

  ghost predicate Listed(names: seq<string>, environment: string, team: string) {
    exists k | 0 <= k < |names| :: MapToEnvironments(names[k]) == Some((environment, team))
  }

  ghost predicate EnvironmentNamesUnique(names: seq<string>) {
    forall e, t, u | Listed(names, e, t) && Listed(names, e, u) :: t == u
  }

  /** An entry is the last key of that environment name. */
  lemma {:induction false} EntryIsLast(names: seq<string>, e: string)
    ensures e in EnvironmentsOf(names) <==> exists t :: Listed(names, e, t)
    ensures e in EnvironmentsOf(names) ==> Listed(names, e, EnvironmentsOf(names)[e])
  {
    if names != [] {
      var init := names[..|names| - 1];
      var last := names[|names| - 1];
      EntryIsLast(init, e);
      assert forall t :: Listed(names, e, t) <==> Listed(init, e, t) || MapToEnvironments(last) == Some((e, t)) by {
        forall t ensures Listed(names, e, t) <==> Listed(init, e, t) || MapToEnvironments(last) == Some((e, t)) {
          ListedSplits(names, e, t);
        }
      }
    }
  }

  lemma ListedSplits(names: seq<string>, e: string, t: string)
    requires names != []
    ensures Listed(names, e, t) <==>
            Listed(names[..|names| - 1], e, t) || MapToEnvironments(names[|names| - 1]) == Some((e, t))
  {
    if k :| 0 <= k < |names| && MapToEnvironments(names[k]) == Some((e, t)) && k < |names| - 1 {
      assert names[..|names| - 1][k] == names[k];
    }
  }

  /**
   The list of environments is complete exactly when no two teams use one environment name:
   it is keyed by the environment's name alone.
   */
  lemma EnvironmentListCompleteIff(names: seq<string>)
    ensures EnvironmentNamesUnique(names) <==>
            forall e, t | Listed(names, e, t) :: e in EnvironmentsOf(names) && EnvironmentsOf(names)[e] == t
  {
    forall e, t | Listed(names, e, t) ensures e in EnvironmentsOf(names) && Listed(names, e, EnvironmentsOf(names)[e]) {
      EntryIsLast(names, e);
    }
  }
}
