/** The merge of software components found by several scans: one entry per key, five fields reconciled, the places of
    declaration united. */
module SbomMerge {
  import opened Prelude
  import opened Sorting

  /** Ecosystem, name, version, version requirement and role. */
  type Key = (string, string, string, string, string)

  datatype Field = Source | Checksum | Integrity | License | FirstParty

  const FIELDS := [Source, Checksum, Integrity, License, FirstParty]

  datatype Value = Null | Text(text: string) | Flag(flag: bool)

  /** `others` are the entries the merge does not look at, such as `development` and `optional`. */
  datatype Component = Component(key: Key, fields: map<Field, Value>, declaredIn: seq<string>, others: map<string, Value>)

  datatype Conflict = Conflict(field: Field, ecosystem: string, name: string)

  type Fields = map<Field, Value>

  /** Present, and neither `None` nor the empty string. */
  predicate IsSet(fields: Fields, f: Field) {
    f in fields && fields[f] != Null && fields[f] != Text("")
  }

  /** Tuples compare component by component. */
  predicate KeyLess(a: Key, b: Key) {
    || Less(a.0, b.0)
    || (a.0 == b.0 && (|| Less(a.1, b.1)
                       || (a.1 == b.1 && (|| Less(a.2, b.2)
                                          || (a.2 == b.2 && (|| Less(a.3, b.3)
                                                             || (a.3 == b.3 && Less(a.4, b.4))))))))
  }

  // ----- The merge -----

  /** One field of a repeated component. */
  function MergeField(existing: Fields, candidate: Fields, f: Field): Result<Fields, Field> {
    if !IsSet(candidate, f) then Success(existing)
    else if IsSet(existing, f) && existing[f] != candidate[f] then Failure(f)
    else Success(existing[f := candidate[f]])
  }

  /** The first `n` fields. */
  function MergeFields(existing: Fields, candidate: Fields, n: nat): Result<Fields, Field>
    requires n <= |FIELDS|
  {
    if n == 0 then Success(existing)
    else
      match MergeFields(existing, candidate, n - 1)
      case Failure(f) => Failure(f)
      case Success(fields) => MergeField(fields, candidate, FIELDS[n - 1])
  }

  function PathsOf(paths: seq<string>): set<string> {
    set p | p in paths
  }

  ghost function SortedPaths(paths: set<string>): (list: seq<string>)
    ensures StrictlyAscending(list)
    ensures forall p :: p in list <==> p in paths
  {
    LessIsStrictOrder();
    Sorted(Less, paths)
  }

  /** The merged entries after one more component. */
  ghost function Step(merged: map<Key, Component>, c: Component): Result<map<Key, Component>, Conflict> {
    if c.key !in merged then Success(merged[c.key := c.(declaredIn := SortedPaths(PathsOf(c.declaredIn)))])
    else
      var existing := merged[c.key];
      match MergeFields(existing.fields, c.fields, |FIELDS|)
      case Failure(f) => Failure(Conflict(f, c.key.0, c.key.1))
      case Success(fields) =>
        Success(merged[c.key := existing.(
          fields := fields,
          declaredIn := SortedPaths(PathsOf(existing.declaredIn) + PathsOf(c.declaredIn)))])
  }

  ghost function Merged(components: seq<Component>): Result<map<Key, Component>, Conflict> {
    if components == [] then Success(map[])
    else
      match Merged(components[..|components| - 1])
      case Failure(conflict) => Failure(conflict)
      case Success(merged) => Step(merged, components[|components| - 1])
  }

  /** The entries in the order of their keys. */
  ghost function Listing(merged: map<Key, Component>): (list: seq<Component>)
    ensures |list| == |Keys(merged)| && forall i :: 0 <= i < |list| ==> list[i] == merged[Keys(merged)[i]]
  {
    seq(|Keys(merged)|, i requires 0 <= i < |Keys(merged)| => merged[Keys(merged)[i]])
  }

  ghost function Keys(merged: map<Key, Component>): (keys: seq<Key>)
    ensures Ascends(KeyLess, keys)
    ensures forall key :: key in keys <==> key in merged
  {
    KeyLessIsStrictOrder();
    Sorted(KeyLess, merged.Keys)
  }

  lemma KeyLessIsStrictOrder()
    ensures IsStrictOrder(KeyLess)
  {
    hide Less;
    forall a: Key ensures !KeyLess(a, a) {
      NotBelowItself(a);
    }
    forall a: Key, b: Key ensures a == b || KeyLess(a, b) || KeyLess(b, a) {
      KeysCompare(a, b);
    }
    forall a, b, c | KeyLess(a, b) && KeyLess(b, c) ensures KeyLess(a, c) {
      KeysChain(a, b, c);
    }
  }

  lemma NotBelowItself(a: Key)
    ensures !KeyLess(a, a)
  {
    hide Less;
    LessIsTotal(a.0, a.0);
    LessIsTotal(a.1, a.1);
    LessIsTotal(a.2, a.2);
    LessIsTotal(a.3, a.3);
    LessIsTotal(a.4, a.4);
  }

  lemma KeysCompare(a: Key, b: Key)
    ensures a == b || KeyLess(a, b) || KeyLess(b, a)
  {
    hide Less;
    LessIsTotal(a.0, b.0);
    LessIsTotal(a.1, b.1);
    LessIsTotal(a.2, b.2);
    LessIsTotal(a.3, b.3);
    LessIsTotal(a.4, b.4);
  }

  lemma Chain(a: string, b: string, c: string)
    ensures Less(a, b) && Less(b, c) ==> Less(a, c)
  {
    if Less(a, b) && Less(b, c) {
      LessIsTransitive(a, b, c);
    }
  }

  lemma KeysChain(a: Key, b: Key, c: Key)
    requires KeyLess(a, b) && KeyLess(b, c)
    ensures KeyLess(a, c)
  {
    hide Less;
    Chain(a.0, b.0, c.0);
    Chain(a.1, b.1, c.1);
    Chain(a.2, b.2, c.2);
    Chain(a.3, b.3, c.3);
    Chain(a.4, b.4, c.4);
  }

  /** `merge_components`. */
  method MergeComponents(components: seq<Component>) returns (r: Result<seq<Component>, Conflict>)
    ensures r == match Merged(components)
                 case Failure(conflict) => Failure(conflict)
                 case Success(merged) => Success(Listing(merged))
  {
    hide MergeField, MergeFields, PathsOf, Merged;
    LessIsStrictOrder();
    var merged: map<Key, Component> := map[];
    MergedNothing();
    assert components[..0] == [];
    for i := 0 to |components|
      invariant Merged(components[..i]) == Success(merged)
    {
      var component := components[i];
      var key := component.key;
      MergedOneMore(components, i);
      MergeStays(components, i + 1);
      if key !in merged {
        var paths := Sort(Less, PathsOf(component.declaredIn));
        merged := merged[key := component.(declaredIn := paths)];
      } else {
        var existing := merged[key];
        var paths := Sort(Less, PathsOf(existing.declaredIn) + PathsOf(component.declaredIn));
        existing := existing.(declaredIn := paths);
        var fields := UpdateFields(existing.fields, component.fields);
        if fields.Failure? {
          return Failure(Conflict(fields.error, key.0, key.1));
        }
        merged := merged[key := existing.(fields := fields.value)];
      }
    }
    assert components[..|components|] == components;
    var list := ListEntries(merged);
    r := Success(list);
  }

  method ListEntries(merged: map<Key, Component>) returns (list: seq<Component>)
    ensures list == Listing(merged)
  {
    hide KeyLess, IsStrictOrder, Ascends;
    KeyLessIsStrictOrder();
    var keys := Sort(KeyLess, merged.Keys);
    list := [];
    for i := 0 to |keys|
      invariant |list| == i && forall j :: 0 <= j < i ==> list[j] == merged[keys[j]]
    {
      assert keys[i] in keys;
      list := list + [merged[keys[i]]];
    }
  }

  lemma MergedNothing()
    ensures Merged([]) == Success(map[])
  {
  }

  lemma MergedOneMore(components: seq<Component>, i: nat)
    requires i < |components|
    ensures Merged(components[..i + 1])
            == match Merged(components[..i])
               case Failure(conflict) => Failure(conflict)
               case Success(merged) => Step(merged, components[i])
  {
    hide Step;
    assert components[..i + 1][..i] == components[..i];
  }

  method UpdateFields(existing: Fields, candidate: Fields) returns (r: Result<Fields, Field>)
    ensures r == MergeFields(existing, candidate, |FIELDS|)
  {
    var fields := existing;
    for i := 0 to |FIELDS|
      invariant MergeFields(existing, candidate, i) == Success(fields)
    {
      var f := FIELDS[i];
      MergeFieldsStay(existing, candidate, i + 1, |FIELDS|);
      if IsSet(candidate, f) && IsSet(fields, f) && fields[f] != candidate[f] {
        return Failure(f);
      }
      if IsSet(candidate, f) {
        fields := fields[f := candidate[f]];
      }
    }
    r := Success(fields);
  }

  lemma {:induction false} MergeFieldsStay(existing: Fields, candidate: Fields, i: nat, n: nat)
    requires i <= n <= |FIELDS|
    ensures MergeFields(existing, candidate, i).Failure? ==>
              MergeFields(existing, candidate, n) == MergeFields(existing, candidate, i)
    decreases n
  {
    if i < n {
      MergeFieldsStay(existing, candidate, i, n - 1);
    }
  }

  /** The first conflict ends the merge. */
  lemma {:induction false} MergeStays(components: seq<Component>, i: nat)
    requires i <= |components|
    ensures Merged(components[..i]).Failure? ==> Merged(components) == Merged(components[..i])
    decreases |components|
  {
    hide Step;
    if i < |components| {
      var front := components[..|components| - 1];
      MergeStays(front, i);
      assert front[..i] == components[..i];
    } else {
      assert components[..i] == components;
    }
  }

  // ----- What the merge is -----

  /** Some component of that key has that value for a field. */
  ghost predicate Carries(components: seq<Component>, key: Key, f: Field, v: Value) {
    v != Null && v != Text("") && exists c :: c in components && c.key == key && f in c.fields && c.fields[f] == v
  }

  ghost predicate Declares(components: seq<Component>, key: Key, path: string) {
    exists c :: c in components && c.key == key && path in c.declaredIn
  }

  ghost predicate HasKey(components: seq<Component>, key: Key) {
    exists c :: c in components && c.key == key
  }

  /** Two components of one key disagree on a field. */
  ghost predicate Conflicting(components: seq<Component>) {
    exists key, f, v, w :: v != w && Carries(components, key, f, v) && Carries(components, key, f, w)
  }

  /** The first component of a key. */
  ghost predicate IsFirst(components: seq<Component>, i: nat, key: Key) {
    i < |components| && components[i].key == key && forall j :: 0 <= j < i ==> components[j].key != key
  }

  /** The set fields of a merged entry are what the components of its key carry, its places are all of theirs in order, and
      whatever else it holds is the first one's. */
  ghost predicate IsEntry(components: seq<Component>, key: Key, entry: Component) {
    && entry.key == key
    && (forall f, v :: IsSet(entry.fields, f) && entry.fields[f] == v <==> Carries(components, key, f, v))
    && StrictlyAscending(entry.declaredIn)
    && (forall path :: path in entry.declaredIn <==> Declares(components, key, path))
    && (exists i: nat :: IsFirst(components, i, key) && entry.others == components[i].others)
  }

  ghost predicate IsMerge(components: seq<Component>, merged: map<Key, Component>) {
    && (forall key :: key in merged <==> HasKey(components, key))
    && (forall key :: key in merged ==> IsEntry(components, key, merged[key]))
  }

  /** Merging fields fails exactly when one is set on both sides and differs, and otherwise overlays what the candidate
      sets. */
  lemma {:induction false} MergeFieldsIsExact(existing: Fields, candidate: Fields, n: nat)
    requires n <= |FIELDS|
    ensures var r := MergeFields(existing, candidate, n);
            && (r.Failure? <==> exists i :: 0 <= i < n && IsSet(existing, FIELDS[i]) && IsSet(candidate, FIELDS[i])
                                           && existing[FIELDS[i]] != candidate[FIELDS[i]])
            && (r.Failure? ==> IsSet(existing, r.error) && IsSet(candidate, r.error) && existing[r.error] != candidate[r.error])
            && (r.Success? ==> forall f ::
                  if IsSet(candidate, f) && f in FIELDS[..n] then f in r.value && r.value[f] == candidate[f]
                  else (f in r.value <==> f in existing) && (f in existing ==> r.value[f] == existing[f]))
  {
    if n > 0 {
      MergeFieldsIsExact(existing, candidate, n - 1);
      assert FIELDS[..n] == FIELDS[..n - 1] + [FIELDS[n - 1]];
      assert FIELDS[n - 1] !in FIELDS[..n - 1];
    }
  }

  lemma CarriesMore(front: seq<Component>, c: Component, key: Key, f: Field, v: Value)
    ensures Carries(front + [c], key, f, v)
            <==> Carries(front, key, f, v) || (c.key == key && IsSet(c.fields, f) && c.fields[f] == v)
  {
    assert forall d :: d in front + [c] <==> d in front || d == c;
  }

  lemma DeclaresMore(front: seq<Component>, c: Component, key: Key, path: string)
    ensures Declares(front + [c], key, path) <==> Declares(front, key, path) || (c.key == key && path in c.declaredIn)
  {
    assert forall d :: d in front + [c] <==> d in front || d == c;
  }

  lemma HasKeyMore(front: seq<Component>, c: Component, key: Key)
    ensures HasKey(front + [c], key) <==> HasKey(front, key) || c.key == key
  {
    assert forall d :: d in front + [c] <==> d in front || d == c;
  }

  lemma FirstStays(front: seq<Component>, c: Component, i: nat, key: Key)
    requires IsFirst(front, i, key)
    ensures IsFirst(front + [c], i, key) && (front + [c])[i] == front[i]
  {
  }

  lemma FirstIsNew(front: seq<Component>, c: Component)
    requires !HasKey(front, c.key)
    ensures IsFirst(front + [c], |front|, c.key)
  {
    assert forall j :: 0 <= j < |front| ==> front[j] in front;
  }

  /** Entries of other keys stay what they were. */
  lemma OtherEntry(front: seq<Component>, c: Component, key: Key, entry: Component)
    requires IsEntry(front, key, entry) && c.key != key
    ensures IsEntry(front + [c], key, entry)
  {
    hide IsSet, Carries, Declares;
    forall f, v ensures Carries(front + [c], key, f, v) <==> Carries(front, key, f, v) {
      CarriesMore(front, c, key, f, v);
    }
    forall path ensures Declares(front + [c], key, path) <==> Declares(front, key, path) {
      DeclaresMore(front, c, key, path);
    }
    var i: nat :| IsFirst(front, i, key) && entry.others == front[i].others;
    FirstStays(front, c, i, key);
  }

  lemma NoEntryYet(front: seq<Component>, key: Key)
    requires !HasKey(front, key)
    ensures forall f, v :: !Carries(front, key, f, v)
    ensures forall path :: !Declares(front, key, path)
  {
  }

  /** The entry of a key seen for the first time. */
  lemma NewEntry(front: seq<Component>, c: Component)
    requires !HasKey(front, c.key)
    ensures IsEntry(front + [c], c.key, c.(declaredIn := SortedPaths(PathsOf(c.declaredIn))))
  {
    hide Carries, Declares, IsFirst, HasKey, StrictlyAscending;
    var key := c.key;
    NoEntryYet(front, key);
    forall f, v ensures Carries(front + [c], key, f, v) <==> IsSet(c.fields, f) && c.fields[f] == v {
      CarriesMore(front, c, key, f, v);
    }
    forall path ensures Declares(front + [c], key, path) <==> path in c.declaredIn {
      DeclaresMore(front, c, key, path);
    }
    FirstIsNew(front, c);
  }

  /** The entry of a key seen again. */
  lemma RepeatedEntry(front: seq<Component>, c: Component, entry: Component, fields: Fields)
    requires IsEntry(front, c.key, entry) && MergeFields(entry.fields, c.fields, |FIELDS|) == Success(fields)
    ensures IsEntry(front + [c], c.key,
                    entry.(fields := fields, declaredIn := SortedPaths(PathsOf(entry.declaredIn) + PathsOf(c.declaredIn))))
  {
    hide Carries, Declares, StrictlyAscending, MergeFields;
    var key := c.key;
    forall f, v ensures Carries(front + [c], key, f, v) <==> IsSet(fields, f) && fields[f] == v {
      CarriesMore(front, c, key, f, v);
      FieldAfter(entry.fields, c.fields, fields, f);
    }
    forall path ensures Declares(front + [c], key, path) <==> path in entry.declaredIn || path in c.declaredIn {
      DeclaresMore(front, c, key, path);
    }
    var i: nat :| IsFirst(front, i, key) && entry.others == front[i].others;
    FirstStays(front, c, i, key);
  }

  /** The set value of a field after merging is the set value before or the candidate's. */
  lemma FieldAfter(existing: Fields, candidate: Fields, fields: Fields, f: Field)
    requires MergeFields(existing, candidate, |FIELDS|) == Success(fields)
    ensures IsSet(fields, f) <==> IsSet(existing, f) || IsSet(candidate, f)
    ensures IsSet(existing, f) ==> fields[f] == existing[f]
    ensures IsSet(candidate, f) ==> fields[f] == candidate[f]
  {
    hide MergeFields;
    MergeFieldsIsExact(existing, candidate, |FIELDS|);
    EveryField(f);
    assert FIELDS[..|FIELDS|] == FIELDS;
  }

  lemma EveryField(f: Field)
    ensures exists i: nat :: i < |FIELDS| && FIELDS[i] == f
    ensures f in FIELDS
  {
    match f
    case Source => assert FIELDS[0] == f;
    case Checksum => assert FIELDS[1] == f;
    case Integrity => assert FIELDS[2] == f;
    case License => assert FIELDS[3] == f;
    case FirstParty => assert FIELDS[4] == f;
  }

  lemma StepMerges(front: seq<Component>, merged: map<Key, Component>, c: Component)
    requires IsMerge(front, merged)
    ensures Step(merged, c).Success? ==> IsMerge(front + [c], Step(merged, c).value)
    ensures Step(merged, c).Failure? ==> Conflicting(front + [c])
  {
    hide IsEntry, HasKey, MergeFields, SortedPaths, PathsOf, Conflicting;
    var r := Step(merged, c);
    if c.key !in merged {
      NewEntry(front, c);
    } else {
      var fields := MergeFields(merged[c.key].fields, c.fields, |FIELDS|);
      if fields.Success? {
        RepeatedEntry(front, c, merged[c.key], fields.value);
      } else {
        FailureConflicts(front, c, merged[c.key]);
      }
    }
    if r.Success? {
      forall key ensures key in r.value <==> HasKey(front + [c], key) {
        HasKeyMore(front, c, key);
      }
      forall key | key in r.value ensures IsEntry(front + [c], key, r.value[key]) {
        if key != c.key {
          OtherEntry(front, c, key, merged[key]);
        }
      }
    }
  }

  lemma FailureConflicts(front: seq<Component>, c: Component, entry: Component)
    requires IsEntry(front, c.key, entry) && MergeFields(entry.fields, c.fields, |FIELDS|).Failure?
    ensures Conflicting(front + [c])
  {
    hide MergeFields, Carries, IsEntry;
    FailureIsReal(front, c, entry);
  }

  lemma MoreConflicts(front: seq<Component>, c: Component)
    requires Conflicting(front)
    ensures Conflicting(front + [c])
  {
    hide Carries;
    var key, f, v, w :| v != w && Carries(front, key, f, v) && Carries(front, key, f, w);
    CarriesMore(front, c, key, f, v);
    CarriesMore(front, c, key, f, w);
  }

  /** The merge fails exactly when two components of one key carry different values for a field. Otherwise it has one entry
      per key, made of what the components of that key carry and declare. */
  lemma {:induction false} MergeIsExact(components: seq<Component>)
    ensures Merged(components).Failure? <==> Conflicting(components)
    ensures Merged(components).Success? ==> IsMerge(components, Merged(components).value)
  {
    hide IsEntry, HasKey, Step, Conflicting, IsMerge;
    if components == [] {
      NothingMerges();
    } else {
      var front, c := components[..|components| - 1], components[|components| - 1];
      assert components == front + [c];
      MergeIsExact(front);
      if Merged(front).Success? {
        StepMerges(front, Merged(front).value, c);
      } else {
        MoreConflicts(front, c);
      }
      if Merged(components).Success? {
        NoConflict(components, Merged(components).value);
      }
    }
  }

  /** Two components of one key carry different values for the field, and the key has this ecosystem and name. */
  ghost predicate IsReal(components: seq<Component>, conflict: Conflict) {
    exists key, v, w ::
      && v != w && Carries(components, key, conflict.field, v) && Carries(components, key, conflict.field, w)
      && key.0 == conflict.ecosystem && key.1 == conflict.name
  }

  /** The conflict that is reported is one. */
  lemma {:induction false} ConflictIsReal(components: seq<Component>)
    requires Merged(components).Failure?
    ensures IsReal(components, Merged(components).error)
  {
    hide Carries, IsEntry, HasKey, MergeFields, SortedPaths, PathsOf, IsSet;
    var front, c := components[..|components| - 1], components[|components| - 1];
    assert components == front + [c];
    if Merged(front).Failure? {
      ConflictIsReal(front);
      StillReal(front, c, Merged(front).error);
    } else {
      MergeIsExact(front);
      var merged := Merged(front).value;
      assert IsEntry(front, c.key, merged[c.key]);
      FailureIsReal(front, c, merged[c.key]);
    }
  }

  lemma StillReal(front: seq<Component>, c: Component, conflict: Conflict)
    requires IsReal(front, conflict)
    ensures IsReal(front + [c], conflict)
  {
    hide Carries;
    var key, v, w :|
      && v != w && Carries(front, key, conflict.field, v) && Carries(front, key, conflict.field, w)
      && key.0 == conflict.ecosystem && key.1 == conflict.name;
    CarriesMore(front, c, key, conflict.field, v);
    CarriesMore(front, c, key, conflict.field, w);
  }

  lemma FailureIsReal(front: seq<Component>, c: Component, entry: Component)
    requires IsEntry(front, c.key, entry) && MergeFields(entry.fields, c.fields, |FIELDS|).Failure?
    ensures IsReal(front + [c], Conflict(MergeFields(entry.fields, c.fields, |FIELDS|).error, c.key.0, c.key.1))
  {
    hide Carries, MergeFields, IsSet, Declares, StrictlyAscending;
    MergeFieldsIsExact(entry.fields, c.fields, |FIELDS|);
    var f := MergeFields(entry.fields, c.fields, |FIELDS|).error;
    var v, w := entry.fields[f], c.fields[f];
    assert Carries(front, c.key, f, v);
    CarriesMore(front, c, c.key, f, v);
    CarriesMore(front, c, c.key, f, w);
  }

  lemma NothingMerges()
    ensures IsMerge([], map[]) && !Conflicting([])
  {
  }

  lemma NoConflict(components: seq<Component>, merged: map<Key, Component>)
    requires IsMerge(components, merged)
    ensures !Conflicting(components)
  {
    forall key, f, v, w | Carries(components, key, f, v) && Carries(components, key, f, w) ensures v == w {
      assert HasKey(components, key);
      assert IsEntry(components, key, merged[key]);
      assert merged[key].fields[f] == v;
    }
  }

  // ----- Order of the input -----

  lemma SameComponents(one: seq<Component>, two: seq<Component>)
    requires multiset(one) == multiset(two)
    ensures forall c :: c in one <==> c in two
  {
    assert forall c :: c in one <==> c in multiset(one);
    assert forall c :: c in two <==> c in multiset(two);
  }

  /** Two entries with the same values set, and the same places. */
  ghost predicate Agree(a: Component, b: Component) {
    && a.declaredIn == b.declaredIn
    && forall f :: (IsSet(a.fields, f) <==> IsSet(b.fields, f)) && (IsSet(a.fields, f) ==> a.fields[f] == b.fields[f])
  }

  /** Permuting the input changes neither whether the merge fails nor its keys, their order, the reconciled values and the
      places. (Which conflict is reported, and what else an entry holds, may change.) */
  lemma OrderDoesNotMatter(one: seq<Component>, two: seq<Component>)
    requires multiset(one) == multiset(two)
    ensures Merged(one).Failure? <==> Merged(two).Failure?
    ensures Merged(one).Success? ==>
              var a, b := Merged(one).value, Merged(two).value;
              a.Keys == b.Keys && Keys(a) == Keys(b) && forall key :: key in a ==> Agree(a[key], b[key])
  {
    hide Agree, Merged, Conflicting, HasKey, IsEntry;
    SameComponents(one, two);
    MergeIsExact(one);
    MergeIsExact(two);
    SameConflicts(one, two);
    if Merged(one).Success? {
      var a, b := Merged(one).value, Merged(two).value;
      SameKeys(one, two);
      assert a.Keys == b.Keys;
      forall key | key in a ensures Agree(a[key], b[key]) {
        SameEntry(one, two, key, a[key], b[key]);
      }
    }
  }

  lemma SameKeys(one: seq<Component>, two: seq<Component>)
    requires forall c :: c in one <==> c in two
    ensures forall key :: HasKey(one, key) <==> HasKey(two, key)
  {
  }

  lemma SameFacts(one: seq<Component>, two: seq<Component>, key: Key)
    requires forall c :: c in one <==> c in two
    ensures forall f, v :: Carries(one, key, f, v) <==> Carries(two, key, f, v)
    ensures forall path :: Declares(one, key, path) <==> Declares(two, key, path)
  {
    hide IsSet;
  }

  lemma SameConflicts(one: seq<Component>, two: seq<Component>)
    requires forall c :: c in one <==> c in two
    ensures Conflicting(one) <==> Conflicting(two)
  {
    hide Carries, Declares;
    forall key, f, v ensures Carries(one, key, f, v) <==> Carries(two, key, f, v) {
      SameFacts(one, two, key);
    }
  }

  lemma SameEntry(one: seq<Component>, two: seq<Component>, key: Key, a: Component, b: Component)
    requires forall c :: c in one <==> c in two
    requires IsEntry(one, key, a) && IsEntry(two, key, b)
    ensures Agree(a, b)
  {
    SameFacts(one, two, key);
    hide Carries, Declares, IsFirst;
    SamePaths(a.declaredIn, b.declaredIn);
    forall f ensures (IsSet(a.fields, f) <==> IsSet(b.fields, f)) && (IsSet(a.fields, f) ==> a.fields[f] == b.fields[f]) {
      assert IsSet(a.fields, f) ==> Carries(one, key, f, a.fields[f]);
      assert IsSet(b.fields, f) ==> Carries(two, key, f, b.fields[f]);
    }
  }

  lemma SamePaths(a: seq<string>, b: seq<string>)
    requires StrictlyAscending(a) && StrictlyAscending(b) && forall p :: p in a <==> p in b
    ensures a == b
  {
    hide Less;
    LessIsStrictOrder();
    AscendingIsUnique(Less, a, b);
  }

  /** What the merge does not reconcile comes from whichever component is first. */
  lemma OthersDependOnOrder(key: Key, used: Component, unused: Component)
    requires used == Component(key, map[], [], map["development" := Flag(false)])
    requires unused == Component(key, map[], [], map["development" := Flag(true)])
    ensures Merged([used, unused]).Success? && Merged([unused, used]).Success?
    ensures key in Merged([used, unused]).value && key in Merged([unused, used]).value
    ensures Merged([used, unused]).value[key].others == map["development" := Flag(false)]
    ensures Merged([unused, used]).value[key].others == map["development" := Flag(true)]
  {
    FirstOfTwo(key, used, unused);
    FirstOfTwo(key, unused, used);
  }

  ghost predicate AgreeOnOthers(components: seq<Component>, key: Key) {
    forall c, d :: c in components && d in components && c.key == key && d.key == key ==> c.others == d.others
  }

  /** What a permutation of the input makes of the unreconciled part of an entry. */
  ghost predicate KeepsOthers(one: seq<Component>, two: seq<Component>, key: Key) {
    multiset(one) == multiset(two) ==>
      && Merged(one).Success? && Merged(two).Success? && key in Merged(one).value && key in Merged(two).value
      && Merged(one).value[key].others == Merged(two).value[key].others
  }

  lemma OthersOfFirst(components: seq<Component>, key: Key) returns (i: nat)
    requires Merged(components).Success? && HasKey(components, key)
    ensures key in Merged(components).value && IsFirst(components, i, key)
    ensures Merged(components).value[key].others == components[i].others
  {
    hide Merged, HasKey, Carries, Declares, IsSet, StrictlyAscending;
    MergeIsExact(components);
    var entry := Merged(components).value[key];
    assert IsEntry(components, key, entry);
    i :| IsFirst(components, i, key) && entry.others == components[i].others;
  }

  /** The unreconciled part of an entry survives every permutation exactly when the components of its key agree on it. */
  lemma OthersSurviveExactlyWhenAgreed(components: seq<Component>, key: Key)
    requires Merged(components).Success? && HasKey(components, key)
    ensures (forall two :: KeepsOthers(components, two, key)) <==> AgreeOnOthers(components, key)
  {
    hide Merged, Agree, HasKey, AgreeOnOthers, KeepsOthers;
    if AgreeOnOthers(components, key) {
      forall two ensures KeepsOthers(components, two, key) {
        AgreedOthersSurvive(components, two, key);
      }
    } else {
      var two := DisagreementShows(components, key);
    }
  }

  lemma AgreedOthersSurvive(one: seq<Component>, two: seq<Component>, key: Key)
    requires Merged(one).Success? && HasKey(one, key) && AgreeOnOthers(one, key)
    ensures KeepsOthers(one, two, key)
  {
    hide Merged, Agree;
    if multiset(one) == multiset(two) {
      SameComponents(one, two);
      OrderDoesNotMatter(one, two);
      var i := OthersOfFirst(one, key);
      var j := OthersOfFirst(two, key);
      assert one[i] in one && two[j] in two;
    }
  }

  /** Where they disagree, putting another one first shows. */
  lemma DisagreementShows(components: seq<Component>, key: Key) returns (two: seq<Component>)
    requires Merged(components).Success? && HasKey(components, key) && !AgreeOnOthers(components, key)
    ensures !KeepsOthers(components, two, key)
  {
    hide Merged, Agree, HasKey;
    var i := OthersOfFirst(components, key);
    var d :| d in components && d.key == key && d.others != components[i].others;
    var k :| 0 <= k < |components| && components[k] == d;
    two := [d] + components[..k] + components[k + 1..];
    assert components == components[..k] + [d] + components[k + 1..];
    assert multiset(two) == multiset(components);
    OrderDoesNotMatter(components, two);
    assert two[0].key == key && HasKey(two, key) by { HasFirst(two); }
    var j := OthersOfFirst(two, key);
    assert j == 0;
  }

  lemma HasFirst(components: seq<Component>)
    requires components != []
    ensures HasKey(components, components[0].key)
  {
    assert components[0] in components;
  }

  lemma FirstOfTwo(key: Key, one: Component, two: Component)
    requires one.key == two.key == key && one.fields == map[] && two.fields == map[]
    ensures Merged([one, two]).Success? && key in Merged([one, two]).value
    ensures Merged([one, two]).value[key].others == one.others
  {
    hide Merged, IsSet;
    var both := [one, two];
    MergeIsExact(both);
    assert !Conflicting(both) by { NothingCarried(both); }
    assert one in both && HasKey(both, key);
    var i: nat :| IsFirst(both, i, key) && Merged(both).value[key].others == both[i].others;
    assert both[0].key == key;
  }

  lemma NothingCarried(components: seq<Component>)
    requires forall c :: c in components ==> c.fields == map[]
    ensures !Conflicting(components)
  {
  }

  // ----- Merging again -----

  ghost predicate IsNormal(merged: map<Key, Component>) {
    forall key :: key in merged ==> merged[key].key == key && StrictlyAscending(merged[key].declaredIn)
  }

  function Restricted(merged: map<Key, Component>, keys: seq<Key>): map<Key, Component>
    requires forall key :: key in keys ==> key in merged
  {
    map key | key in keys :: merged[key]
  }

  /** The first entries of a listing merge into themselves. */
  lemma {:induction false} ListingMerges(merged: map<Key, Component>, n: nat)
    requires IsNormal(merged) && n <= |Listing(merged)|
    ensures Merged(Listing(merged)[..n]) == Success(Restricted(merged, Keys(merged)[..n]))
  {
    hide KeyLess, StrictlyAscending, Ascends, Step, Merged, Restricted;
    var list, keys := Listing(merged), Keys(merged);
    if n == 0 {
      assert list[..0] == [];
      MergedNothing();
      assert Restricted(merged, keys[..0]) == map[] by { RestrictedToNothing(merged); }
    } else {
      ListingMerges(merged, n - 1);
      MergedOneMore(list, n - 1);
      var key := keys[n - 1];
      assert key in keys && list[n - 1] == merged[key];
      KeyIsNew(keys, n - 1);
      assert keys[..n] == keys[..n - 1] + [key];
      PutBack(merged, keys[..n - 1], key);
    }
  }

  lemma RestrictedToNothing(merged: map<Key, Component>)
    ensures Restricted(merged, []) == map[]
  {
  }

  /** A normal entry whose key is new is put as it is. */
  lemma PutBack(merged: map<Key, Component>, keys: seq<Key>, key: Key)
    requires IsNormal(merged) && key in merged && key !in keys && forall k :: k in keys ==> k in merged
    ensures Step(Restricted(merged, keys), merged[key]) == Success(Restricted(merged, keys + [key]))
  {
    hide StrictlyAscending;
    SamePaths(SortedPaths(PathsOf(merged[key].declaredIn)), merged[key].declaredIn);
    assert Restricted(merged, keys + [key]) == Restricted(merged, keys)[key := merged[key]];
  }

  lemma KeyIsNew(keys: seq<Key>, n: nat)
    requires Ascends(KeyLess, keys) && n < |keys|
    ensures keys[n] !in keys[..n]
  {
    hide KeyLess;
    KeyLessIsStrictOrder();
    assert forall i :: 0 <= i < n ==> KeyLess(keys[i], keys[n]);
  }

  /** Merging what a merge returned changes nothing. */
  lemma MergeIsIdempotent(components: seq<Component>)
    requires Merged(components).Success?
    ensures Merged(Listing(Merged(components).value)) == Merged(components)
  {
    hide Merged, KeyLess, IsEntry, HasKey, Ascends, Conflicting;
    MergeIsExact(components);
    var merged := Merged(components).value;
    NormalByEntry(components, merged);
    var list, keys := Listing(merged), Keys(merged);
    ListingMerges(merged, |list|);
    assert list[..|list|] == list && keys[..|keys|] == keys;
    assert Restricted(merged, keys) == merged;
  }

  lemma NormalByEntry(components: seq<Component>, merged: map<Key, Component>)
    requires IsMerge(components, merged)
    ensures IsNormal(merged)
  {
    hide IsSet, Carries, Declares, IsFirst, HasKey, StrictlyAscending;
    forall key | key in merged ensures merged[key].key == key && StrictlyAscending(merged[key].declaredIn) {
      assert IsEntry(components, key, merged[key]);
    }
  }
}
