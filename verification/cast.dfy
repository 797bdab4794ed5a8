/**
 * Cast ingestion in files/views.py: `process_cast` turns a list of names
 * separated by full-width commas into `Actor` or `Director` rows, reusing
 * the row that already carries a name, and `get_ai_description` writes the
 * description a new row gets. The chat-completion call is an oracle
 * parameter: `Some(text)` when it answers, `None` when it raises.
 */
module Cast {
  import opened Wrappers
  import opened Rows
  import opened Models
  import opened Store
  import Text

  /** The full-width comma (U+FF0C) between names. */
  const NAME_SEPARATOR: char := '，'

  /** The chat-completion call: the text it answers for a name and role, or `None` when it fails. */
  type DescriptionOracle = (string, Role) -> Option<string>

  /** The tail of the fallback description: "is a well-known actor." or "... director.". */
  function RoleSuffix(role: Role): string {
    if role == ActorRole then "是一位知名演员。" else "是一位知名导演。"
  }

  /**
   * `get_ai_description`: the oracle's answer, or, when the call fails,
   * the name followed by the fixed sentence for the role.
   */
  function Describe(name: string, role: Role, ai: DescriptionOracle): (d: string)
    ensures ai(name, role).Some? ==> d == ai(name, role).value
    ensures ai(name, role).None? ==> d == name + RoleSuffix(role)
  {
    match ai(name, role)
    case Some(text) => text
    case None => name + RoleSuffix(role)
  }

  /** A fallback description names its person and role unambiguously: distinct inputs never share one. */
  lemma FallbackInjective(n1: string, r1: Role, n2: string, r2: Role)
    requires n1 + RoleSuffix(r1) == n2 + RoleSuffix(r2)
    ensures n1 == n2 && r1 == r2
  {
    var s := n1 + RoleSuffix(r1);
    assert |RoleSuffix(r1)| == 8 && |RoleSuffix(r2)| == 8;
    assert n1 == s[..|s| - 8] && n2 == s[..|s| - 8];
    assert RoleSuffix(r1) == s[|s| - 8..] == RoleSuffix(r2);
    if r1 != r2 {
      assert false;
    }
  }

  /** `name.strip()` for every piece. */
  function TrimAll(parts: seq<string>): (r: seq<string>)
    ensures |r| == |parts|
    ensures forall i :: 0 <= i < |parts| ==> r[i] == Text.Trim(parts[i])
  {
    if parts == [] then [] else [Text.Trim(parts[0])] + TrimAll(parts[1..])
  }

  /** A name `process_cast` keeps: non-empty, already stripped, and free of the separator. */
  predicate CleanName(n: string) {
    n != "" && Text.Trim(n) == n && NAME_SEPARATOR !in n
  }

  /** `name != ""` after stripping: the names the loop does not skip. */
  predicate NonEmpty(n: string) {
    n != ""
  }

  /** The names `process_cast` works through, in input order: the pieces between separators, stripped, blanks skipped. */
  function CastNames(names: string): (r: seq<string>)
    ensures forall n :: n in r ==> CleanName(n)
    ensures |r| <= |Text.Split(names, NAME_SEPARATOR)|
  {
    var parts := Text.Split(names, NAME_SEPARATOR);
    var trimmed := TrimAll(parts);
    KeptPiecesAreClean(parts);
    Filter(trimmed, NonEmpty)
  }

  /** The stripped, non-blank pieces of separator-free pieces are clean names. */
  lemma KeptPiecesAreClean(parts: seq<string>)
    requires forall i :: 0 <= i < |parts| ==> NAME_SEPARATOR !in parts[i]
    ensures forall n :: n in Filter(TrimAll(parts), NonEmpty) ==> CleanName(n)
  {
    var trimmed := TrimAll(parts);
    forall n | n in Filter(trimmed, NonEmpty) ensures CleanName(n) {
      assert n in trimmed && n != "";
      var i :| 0 <= i < |trimmed| && trimmed[i] == n;
      assert n == Text.Trim(parts[i]);
      TrimmedPieceIsClean(parts[i]);
    }
  }

  /** A stripped piece without separator that is not empty is a clean name. */
  lemma TrimmedPieceIsClean(piece: string)
    requires NAME_SEPARATOR !in piece && Text.Trim(piece) != ""
    ensures CleanName(Text.Trim(piece))
  {
    var n := Text.Trim(piece);
    Text.TrimIdempotent(piece);
    Text.TrimIsSlice(piece);
  }

  /** Joining clean names with the separator and splitting them again gives back the same names. */
  lemma CastNamesOfJoin(ns: seq<string>)
    requires |ns| >= 1
    requires forall i :: 0 <= i < |ns| ==> CleanName(ns[i])
    ensures CastNames(Text.Join(ns, NAME_SEPARATOR)) == ns
  {
    Text.SplitJoin(ns, NAME_SEPARATOR);
    assert TrimAll(ns) == ns;
    FilterAll(ns, NonEmpty);
  }

  /**
   * Any list of names is its separator-free pieces joined by the separator;
   * `process_cast` works through exactly those pieces, stripped, the blank
   * ones skipped, in input order.
   */
  lemma CastNamesOfPieces(ps: seq<string>)
    requires |ps| >= 1
    requires forall i :: 0 <= i < |ps| ==> NAME_SEPARATOR !in ps[i]
    ensures CastNames(Text.Join(ps, NAME_SEPARATOR)) == Filter(TrimAll(ps), NonEmpty)
  {
    Text.SplitJoin(ps, NAME_SEPARATOR);
  }

  /** A list without separator that is not all whitespace names one person: its stripped self. */
  lemma SingleName(names: string)
    requires NAME_SEPARATOR !in names && !Text.IsBlank(names)
    ensures CastNames(names) == [Text.Trim(names)]
  {
    Text.SplitJoin([names], NAME_SEPARATOR);
    assert Text.Join([names], NAME_SEPARATOR) == names;
    assert TrimAll([names]) == [Text.Trim(names)];
    FilterAll([Text.Trim(names)], NonEmpty);
  }

  /** The table `role_type` selects: `actor` is `Actor`, any other value `Director`. */
  function RoleOf(roleType: string): (role: Role)
    ensures role == ActorRole <==> roleType == "actor"
  {
    if roleType == "actor" then ActorRole else DirectorRole
  }

  /** Some name in `ns` is carried by two or more rows of `table`. */
  ghost predicate Ambiguous(table: seq<Person>, ns: seq<string>) {
    exists n :: n in ns && |Named(table, n)| >= 2
  }

  /** `people[i]` is the one row of `table` named `ns[i]`, for every `i`. */
  ghost predicate OnePerName(table: seq<Person>, ns: seq<string>, people: seq<Person>) {
    && |people| == |ns|
    && forall i :: 0 <= i < |ns| ==> people[i].name == ns[i] && Named(table, ns[i]) == [people[i]]
  }

  /**
   * Against the table `before` the loop: a name that had one row got that
   * row back, and a name that had none got a new row with the described
   * defaults.
   */
  ghost predicate ReusedOrDescribed(before: seq<Person>, ns: seq<string>, people: seq<Person>, role: Role, ai: DescriptionOracle) {
    && |people| == |ns|
    && forall i :: 0 <= i < |ns| ==>
      && (|Named(before, ns[i])| == 1 ==> people[i] == Named(before, ns[i])[0])
      && (|Named(before, ns[i])| == 0 ==>
            people[i].description == Describe(people[i].name, role, ai) && people[i].status == "active")
  }

  /**
   * `process_cast`: for each name in turn, `get_or_create` on the selected
   * table with the described defaults; the people come back in input
   * order, and a repeated name yields the same row each time. `None` is the
   * `MultipleObjectsReturned` a name held by several rows raises.
   */
  method ProcessCast(store: CatalogStore, names: string, roleType: string, ai: DescriptionOracle)
    returns (r: Option<seq<Person>>)
    requires store.Valid()
    modifies store`actors, store`nextActorId, store`directors, store`nextDirectorId
    ensures store.Valid()
    ensures RoleOf(roleType) == ActorRole ==> store.directors == old(store.directors)
    ensures RoleOf(roleType) == DirectorRole ==> store.actors == old(store.actors)
    ensures old(store.People(RoleOf(roleType))) <= store.People(RoleOf(roleType))
    ensures AddedFor(old(store.People(RoleOf(roleType))), store.People(RoleOf(roleType)), CastNames(names), RoleOf(roleType), ai)
    ensures r.None? <==> Ambiguous(old(store.People(RoleOf(roleType))), CastNames(names))
    ensures r.None? ==> Ambiguous(store.People(RoleOf(roleType)), CastNames(names))
    ensures r.Some? ==> OnePerName(store.People(RoleOf(roleType)), CastNames(names), r.value)
    ensures r.Some? ==> ReusedOrDescribed(old(store.People(RoleOf(roleType))), CastNames(names), r.value, RoleOf(roleType), ai)
  {
    var role := RoleOf(roleType);
    var ns := CastNames(names);
    ghost var start := store.People(role);
    r := GetOrCreateAll(store, role, ns, ai);
    if r.Some? {
      Outcome(start, store.People(role), ns, r.value, role, ai);
    }
  }

  /** The loop of `process_cast`: one `get_or_create` per name, stopping at the first failure. */
  method GetOrCreateAll(store: CatalogStore, role: Role, ns: seq<string>, ai: DescriptionOracle)
    returns (r: Option<seq<Person>>)
    requires store.Valid()
    modifies store`actors, store`nextActorId, store`directors, store`nextDirectorId
    ensures store.Valid()
    ensures role == ActorRole ==> store.directors == old(store.directors)
    ensures role == DirectorRole ==> store.actors == old(store.actors)
    ensures old(store.People(role)) <= store.People(role)
    ensures AddedFor(old(store.People(role)), store.People(role), ns, role, ai)
    ensures r.None? <==> Ambiguous(old(store.People(role)), ns)
    ensures r.None? ==> Ambiguous(store.People(role), ns)
    ensures r.Some? ==> |r.value| == |ns|
    ensures r.Some? ==> forall i :: 0 <= i < |ns| ==> Named(store.People(role), ns[i]) == [r.value[i]]
  {
    ghost var start := store.People(role);
    var result: seq<Person> := [];
    for i := 0 to |ns|
      invariant store.Valid()
      invariant role == ActorRole ==> store.directors == old(store.directors)
      invariant role == DirectorRole ==> store.actors == old(store.actors)
      invariant |result| == i
      invariant Progress(start, store.People(role), ns, result, role, ai)
    {
      var person := GetOrCreateNext(store, role, ns, result, ai, start);
      if person.None? {
        return None;
      }
      result := result + [person.value];
    }
    Finished(start, store.People(role), ns, result, role, ai);
    r := Some(result);
  }

  /** One turn of the loop of `process_cast`: `get_or_create` of the next name, `ns[|result|]`. */
  method GetOrCreateNext(store: CatalogStore, role: Role, ns: seq<string>, result: seq<Person>,
                         ai: DescriptionOracle, ghost start: seq<Person>)
    returns (person: Option<Person>)
    requires store.Valid() && |result| < |ns|
    requires Progress(start, store.People(role), ns, result, role, ai)
    modifies store`actors, store`nextActorId, store`directors, store`nextDirectorId
    ensures store.Valid()
    ensures role == ActorRole ==> store.directors == old(store.directors)
    ensures role == DirectorRole ==> store.actors == old(store.actors)
    ensures person.None? ==>
      && Ambiguous(start, ns) && Ambiguous(store.People(role), ns)
      && AddedFor(start, store.People(role), ns, role, ai)
    ensures person.Some? ==> Progress(start, store.People(role), ns, result + [person.value], role, ai)
  {
    var i := |result|;
    var description := Describe(ns[i], role, ai);
    ghost var table := store.People(role);
    person := store.GetOrCreate(role, ns[i], description);
    if person.None? {
      FailedName(start, table, ns, result, i, role, ai);
    } else {
      LoopStep(start, table, store.People(role), ns, result, i, person.value, role, ai);
    }
  }

  /**
   * What the loop of `process_cast` has done after the names before
   * `ns[|result|]`: it added rows only as `AddedFor` those names says, and
   * each of those names now has exactly the one row it returned.
   */
  ghost predicate Progress(start: seq<Person>, now: seq<Person>, ns: seq<string>, result: seq<Person>,
                           role: Role, ai: DescriptionOracle) {
    && |result| <= |ns|
    && AddedFor(start, now, ns[..|result|], role, ai)
    && forall j :: 0 <= j < |result| ==> Named(now, ns[j]) == [result[j]]
  }

  /** What one turn of the loop of `process_cast` keeps: its progress, for one name more. */
  lemma LoopStep(start: seq<Person>, before: seq<Person>, after: seq<Person>, ns: seq<string>, result: seq<Person>,
                 i: nat, p: Person, role: Role, ai: DescriptionOracle)
    requires i < |ns| && |result| == i
    requires Progress(start, before, ns, result, role, ai)
    requires |Named(before, ns[i])| < 2
    requires |Named(before, ns[i])| == 1 ==> p == Named(before, ns[i])[0] && after == before
    requires |Named(before, ns[i])| == 0 ==>
      && p.name == ns[i] && p.description == Describe(ns[i], role, ai) && p.status == "active"
      && after == before + [p]
    ensures Progress(start, after, ns, result + [p], role, ai)
  {
    NextName(before, after, ns, result, i, p);
    AddedForWider(start, before, ns[..i], ns[..i + 1], role, ai);
    assert ns[..i + 1][i] == ns[i];
    Appended(start, before, after, ns[..i + 1], p, role, ai);
  }

  /**
   * `get_or_create` fails on `ns[i]` only for a name that had several rows
   * before the loop: the loop added rows for earlier names only, and an
   * earlier name equal to `ns[i]` would now have one row.
   */
  lemma FailedName(start: seq<Person>, table: seq<Person>, ns: seq<string>, result: seq<Person>,
                   i: nat, role: Role, ai: DescriptionOracle)
    requires i < |ns| && |result| == i
    requires Progress(start, table, ns, result, role, ai)
    requires |Named(table, ns[i])| >= 2
    ensures Ambiguous(start, ns) && Ambiguous(table, ns)
    ensures AddedFor(start, table, ns, role, ai)
  {
    assert ns[i] in ns;
    AddedForWider(start, table, ns[..i], ns, role, ai);
    forall j | 0 <= j < i ensures ns[j] != ns[i] {
      assert |Named(table, ns[j])| == 1;
    }
    NotAddedFor(start, table, ns[..i], ns[i], role, ai);
  }

  /** The loop of `process_cast` done with every name: what `GetOrCreateAll` promises on success. */
  lemma Finished(start: seq<Person>, now: seq<Person>, ns: seq<string>, result: seq<Person>,
                 role: Role, ai: DescriptionOracle)
    requires |result| == |ns| && Progress(start, now, ns, result, role, ai)
    ensures AddedFor(start, now, ns, role, ai)
    ensures !Ambiguous(start, ns)
    ensures forall i :: 0 <= i < |ns| ==> Named(now, ns[i]) == [result[i]]
  {
    assert ns[..|result|] == ns;
    Unambiguous(start, now, ns, result);
  }

  /** A name outside `ns` gains no row from rows added as `AddedFor` says. */
  lemma NotAddedFor(start: seq<Person>, now: seq<Person>, ns: seq<string>, n: string, role: Role, ai: DescriptionOracle)
    requires AddedFor(start, now, ns, role, ai) && n !in ns
    ensures Named(now, n) == Named(start, n)
  {
    var added := now[|start|..];
    forall k | 0 <= k < |added| ensures !HasName(n)(added[k]) {
      assert added[k] in added;
    }
    FilterNone(added, HasName(n));
    assert now == start + added;
    FilterConcat(start, added, HasName(n));
  }

  /** When every name ends with exactly one row, no name had several rows before the loop. */
  lemma Unambiguous(start: seq<Person>, now: seq<Person>, ns: seq<string>, result: seq<Person>)
    requires start <= now && |result| == |ns|
    requires forall i :: 0 <= i < |ns| ==> Named(now, ns[i]) == [result[i]]
    ensures !Ambiguous(start, ns)
  {
    assert now == start + now[|start|..];
    forall n | n in ns ensures |Named(start, n)| < 2 {
      var i :| 0 <= i < |ns| && ns[i] == n;
      FilterConcat(start, now[|start|..], HasName(n));
    }
  }

  /** `AddedFor` a list of names holds for every longer list that starts with it. */
  lemma AddedForWider(start: seq<Person>, now: seq<Person>, ns: seq<string>, ms: seq<string>,
                      role: Role, ai: DescriptionOracle)
    requires AddedFor(start, now, ns, role, ai) && ns <= ms
    ensures AddedFor(start, now, ms, role, ai)
  {
    forall p | p in now[|start|..] ensures p.name in ms {
      var k :| 0 <= k < |ns| && ns[k] == p.name;
      assert ms[k] == p.name;
    }
  }

  /** One `get_or_create` of the next name keeps every earlier name's row and makes the returned row the next name's only one. */
  lemma NextName(before: seq<Person>, after: seq<Person>, ns: seq<string>, result: seq<Person>, i: nat, p: Person)
    requires i < |ns| && |result| == i
    requires forall j :: 0 <= j < i ==> Named(before, ns[j]) == [result[j]]
    requires |Named(before, ns[i])| < 2
    requires |Named(before, ns[i])| == 1 ==> p == Named(before, ns[i])[0] && after == before
    requires |Named(before, ns[i])| == 0 ==> p.name == ns[i] && after == before + [p]
    ensures forall j :: 0 <= j <= i ==> Named(after, ns[j]) == [(result + [p])[j]]
  {
    forall j | 0 <= j <= i ensures Named(after, ns[j]) == [(result + [p])[j]] {
      if j < i {
        assert (result + [p])[j] == result[j];
        if |Named(before, ns[i])| == 0 {
          assert |Named(before, ns[j])| == 1;
          OtherNameUnaffected(before, p, ns[j]);
        }
      } else {
        assert (result + [p])[j] == p;
        if |Named(before, ns[i])| == 0 {
          OtherNameUnaffected(before, p, ns[i]);
        } else {
          OnlyElement(Named(before, ns[i]));
        }
      }
    }
  }

  lemma OnlyElement<T>(s: seq<T>)
    requires |s| == 1
    ensures s == [s[0]]
  {
  }

  /** Appending `p` adds `p` to the rows named `p.name` and leaves every other name's rows alone. */
  lemma OtherNameUnaffected(before: seq<Person>, p: Person, name: string)
    ensures Named(before + [p], name) == if p.name == name then Named(before, name) + [p] else Named(before, name)
  {
    FilterConcat(before, [p], HasName(name));
    assert Filter([p], HasName(name)) == if p.name == name then [p] else [];
  }

  /**
   * The rows `now` holds beyond `start`: each one is for a name of `ns` that
   * had no row in `start`, and carries the described defaults.
   */
  ghost predicate AddedFor(start: seq<Person>, now: seq<Person>, ns: seq<string>, role: Role, ai: DescriptionOracle) {
    && start <= now
    && forall p :: p in now[|start|..] ==>
         && p.name in ns && Named(start, p.name) == []
         && p.description == Describe(p.name, role, ai) && p.status == "active"
  }

  /** A row appended for a listed name that had no row keeps the rows added since `start` as `AddedFor` says. */
  lemma Appended(start: seq<Person>, before: seq<Person>, after: seq<Person>, ns: seq<string>, p: Person,
                 role: Role, ai: DescriptionOracle)
    requires AddedFor(start, before, ns, role, ai)
    requires after == before || (&& after == before + [p] && p.name in ns && Named(before, p.name) == []
                                 && p.description == Describe(p.name, role, ai) && p.status == "active")
    ensures AddedFor(start, after, ns, role, ai)
  {
    if after != before {
      assert after[|start|..] == before[|start|..] + [p];
      assert before == start + before[|start|..];
      FilterConcat(start, before[|start|..], HasName(p.name));
    }
  }

  /** What the loop's result says about each name, measured against the table before it ran. */
  lemma Outcome(start: seq<Person>, now: seq<Person>, ns: seq<string>, result: seq<Person>, role: Role, ai: DescriptionOracle)
    requires start <= now && |result| == |ns|
    requires forall i :: 0 <= i < |ns| ==> Named(now, ns[i]) == [result[i]]
    requires AddedFor(start, now, ns, role, ai)
    ensures OnePerName(now, ns, result)
    ensures ReusedOrDescribed(start, ns, result, role, ai)
  {
    forall i | 0 <= i < |result|
      ensures result[i].name == ns[i]
      ensures |Named(start, ns[i])| == 1 ==> result[i] == Named(start, ns[i])[0]
      ensures |Named(start, ns[i])| == 0 ==>
        result[i].description == Describe(result[i].name, role, ai) && result[i].status == "active"
    {
      assert result[i] in Named(now, ns[i]);
      Grown(start, now, ns[i], result[i]);
    }
  }

  /** How a processed name's row relates to the table before the loop. */
  lemma Grown(start: seq<Person>, now: seq<Person>, name: string, p: Person)
    requires start <= now
    requires Named(now, name) == [p]
    ensures |Named(start, name)| == 1 ==> p == Named(start, name)[0]
    ensures |Named(start, name)| == 0 ==> p in now[|start|..]
  {
    assert now == start + now[|start|..];
    FilterConcat(start, now[|start|..], HasName(name));
    if |Named(start, name)| == 0 {
      assert p in Named(now[|start|..], name);
    }
  }
}
