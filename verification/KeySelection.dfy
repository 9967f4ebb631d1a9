/**
 The choice of Diffie-Hellman key types for an envelope, src/crypto/Envelope.cpp:93-120, 222-250, 279-294 and 567-591.
 Key lists of credentials come sorted and without repetition from src/identity/Authority.cpp:541-562.
 */
module KeySelection {
  import opened BitOps

  datatype Algorithm = Error | Null | Legacy | Secp256k1 | ED25519
  {
    /** The order of the enumeration. */
    function Rank(): nat {
      match this
      case Error => 0
      case Null => 1
      case Legacy => 2
      case Secp256k1 => 3
      case ED25519 => 4
    }
  }

  type Keys = seq<Algorithm>
  datatype Credential = Credential(id: nat, keys: Keys)
  datatype NymKeys = NymKeys(nym: nat, credentials: seq<Credential>)
  type Solution = map<nat, map<nat, Algorithm>>

  ghost predicate StrictlySorted(k: Keys) {
    forall i, j :: 0 <= i < j < |k| ==> k[i].Rank() < k[j].Rank()
  }

  ghost predicate WellFormed(requirements: seq<NymKeys>) {
    forall i, j :: 0 <= i < |requirements| && 0 <= j < |requirements[i].credentials| ==>
      StrictlySorted(requirements[i].credentials[j].keys)
  }

  /** Key types the library can generate. */
  predicate Usable(a: Algorithm) {
    a in {Legacy, Secp256k1, ED25519}
  }

  /** Lists such as supported_: sorted, of usable types. */
  ghost predicate KeyList(k: Keys) {
    StrictlySorted(k) && forall i :: 0 <= i < |k| ==> Usable(k[i])
  }

  // ----- Weights -----

  /** key_weights_. */
  function Weight(a: Algorithm): nat
    requires Usable(a)
  {
    match a
    case ED25519 => 1
    case Secp256k1 => 2
    case Legacy => 4
  }

  function TotalWeight(k: Keys): nat
    requires forall i :: 0 <= i < |k| ==> Usable(k[i])
  {
    if k == [] then 0 else TotalWeight(k[..|k| - 1]) + Weight(k[|k| - 1])
  }

  /** The list of a given weight. */
  function ListOf(w: nat): Keys
    requires w < 8
  {
    match w
    case 0 => []
    case 1 => [ED25519]
    case 2 => [Secp256k1]
    case 3 => [Secp256k1, ED25519]
    case 4 => [Legacy]
    case 5 => [Legacy, ED25519]
    case 6 => [Legacy, Secp256k1]
    case _ => [Legacy, Secp256k1, ED25519]
  }

  lemma WeightOfFew(a: Algorithm, b: Algorithm, c: Algorithm)
    requires Usable(a) && Usable(b) && Usable(c)
    ensures TotalWeight([]) == 0
    ensures TotalWeight([a]) == Weight(a)
    ensures TotalWeight([a, b]) == Weight(a) + Weight(b)
    ensures TotalWeight([a, b, c]) == Weight(a) + Weight(b) + Weight(c)
  {
    assert [a][..0] == [] && [a, b][..1] == [a] && [a, b, c][..2] == [a, b];
  }

  function KeySet(k: Keys): set<Algorithm> {
    set a | a in k
  }

  function SetWeight(s: set<Algorithm>): (w: nat)
    ensures w < 8
  {
    (if ED25519 in s then 1 else 0) + (if Secp256k1 in s then 2 else 0) + (if Legacy in s then 4 else 0)
  }

  lemma ListFacts(w: nat)
    requires w < 8
    ensures KeyList(ListOf(w)) && TotalWeight(ListOf(w)) == w && SetWeight(KeySet(ListOf(w))) == w
  {
    WeightOfFew(Legacy, Secp256k1, ED25519);
    WeightOfFew(Legacy, ED25519, ED25519);
    WeightOfFew(Secp256k1, ED25519, ED25519);
    WeightOfFew(ED25519, ED25519, ED25519);
  }

  lemma {:induction false} RankGrows(k: Keys, i: nat)
    requires KeyList(k) && i < |k|
    ensures k[i].Rank() >= i + 2
  {
    if i > 0 {
      RankGrows(k, i - 1);
      assert k[i - 1].Rank() < k[i].Rank();
    }
  }

  lemma ListOfRanks(k: Keys) returns (w: nat)
    requires KeyList(k)
    ensures w < 8 && k == ListOf(w)
  {
    w := 0;
    if |k| != 0 {
      RankGrows(k, |k| - 1);
      w := Weight(k[0]);
      if |k| >= 2 {
        assert k[0].Rank() < k[1].Rank();
        w := w + Weight(k[1]);
        if |k| == 3 {
          assert k[1].Rank() < k[2].Rank();
          w := w + Weight(k[2]);
          assert k == [k[0], k[1], k[2]];
        } else {
          assert k == [k[0], k[1]];
        }
      } else {
        assert k == [k[0]];
      }
    }
  }

  /** A list is determined by its weight, and by its set. */
  lemma WeightDetermines(k: Keys)
    requires KeyList(k)
    ensures TotalWeight(k) == SetWeight(KeySet(k)) && k == ListOf(TotalWeight(k))
  {
    var w := ListOfRanks(k);
    ListFacts(w);
  }

  /** The sorted list of a set of usable types. */
  lemma ListOfSet(s: set<Algorithm>)
    requires forall a :: a in s ==> Usable(a)
    ensures KeySet(ListOf(SetWeight(s))) == s
  {
    ListFacts(SetWeight(s));
    SameWeightSameSet(KeySet(ListOf(SetWeight(s))), s);
  }

  lemma SameWeightSameSet(s: set<Algorithm>, t: set<Algorithm>)
    requires SetWeight(s) == SetWeight(t) && (forall a :: a in s ==> Usable(a)) && forall a :: a in t ==> Usable(a)
    ensures s == t
  {
    assert ED25519 in s <==> ED25519 in t;
    forall a
      ensures a in s <==> a in t
    {
      assert a in s || a in t ==> Usable(a);
    }
  }

  /** A larger set weighs more. */
  lemma WeightMonotone(s: set<Algorithm>, t: set<Algorithm>)
    requires s <= t && forall a :: a in t ==> Usable(a)
    ensures SetWeight(s) <= SetWeight(t)
    ensures SetWeight(s) == SetWeight(t) ==> s == t
  {
  }

  // ----- All solutions -----

  /** supported_, for a library built with or without each key type. */
  function Supported(legacy: bool, secp256k1: bool, ed25519: bool): (k: Keys)
    ensures KeyList(k)
  {
    (if legacy then [Legacy] else []) + (if secp256k1 then [Secp256k1] else []) + (if ed25519 then [ED25519] else [])
  }

  /** The keys whose column has its bit set in `row`, the first column being the lowest bit. */
  function Chosen(supported: Keys, row: nat): Keys {
    if supported == [] then []
    else (if row % 2 == 1 then [supported[0]] else []) + Chosen(supported[1..], row / 2)
  }

  /** The row that chooses a set. */
  function RowOf(supported: Keys, s: set<Algorithm>): nat {
    if supported == [] then 0 else Bit(supported[0] in s) + 2 * RowOf(supported[1..], s)
  }

  lemma ConsIsList(x: Algorithm, rest: Keys)
    requires KeyList(rest) && Usable(x) && forall i :: 0 <= i < |rest| ==> x.Rank() < rest[i].Rank()
    ensures KeyList([x] + rest)
  {
  }

  lemma TailIsList(k: Keys)
    requires KeyList(k) && k != []
    ensures KeyList(k[1..]) && Usable(k[0])
    ensures forall a :: a in k[1..] ==> a in k && k[0].Rank() < a.Rank()
  {
    forall i | 0 <= i < |k[1..]|
      ensures k[1..][i] == k[i + 1] && k[0].Rank() < k[i + 1].Rank()
    {
    }
  }

  lemma {:induction false} ChosenIsList(supported: Keys, row: nat)
    requires KeyList(supported)
    ensures KeyList(Chosen(supported, row))
    ensures forall i :: 0 <= i < |Chosen(supported, row)| ==> Chosen(supported, row)[i] in supported
  {
    if supported != [] {
      var rest := Chosen(supported[1..], row / 2);
      TailIsList(supported);
      ChosenIsList(supported[1..], row / 2);
      ConsIsList(supported[0], rest);
      assert [] + rest == rest;
    }
  }

  /** Every set of supported keys is chosen by a row, and by one below 2^n. */
  lemma {:induction false} RowChooses(supported: Keys, s: set<Algorithm>)
    ensures KeySet(Chosen(supported, RowOf(supported, s))) == s * KeySet(supported)
    ensures RowOf(supported, s) < Shl(1, |supported|)
  {
    if supported != [] {
      var rest := supported[1..];
      RowChooses(rest, s);
      var row := RowOf(supported, s);
      assert row / 2 == RowOf(rest, s) && row % 2 == Bit(supported[0] in s);
      assert KeySet(supported) == {supported[0]} + KeySet(rest);
      ChosenSplits(supported, row);
    }
  }

  lemma ChosenSplits(supported: Keys, row: nat)
    requires supported != []
    ensures KeySet(Chosen(supported, row))
            == (if row % 2 == 1 then {supported[0]} else {}) + KeySet(Chosen(supported[1..], row / 2))
  {
  }

  /** row & (one << column). */
  lemma {:induction false} BitOfRow(row: nat, column: nat)
    ensures And(row, Shl(1, column)) != 0 <==> Shr(row, column) % 2 == 1
    decreases column
  {
    if column == 0 {
      assert And(row, 1) == Bit(row % 2 == 1) + 2 * And(row / 2, 0) || row == 0;
    } else {
      BitOfRow(row / 2, column - 1);
      ShlPositive(column);
    }
  }

  lemma {:induction false} ShlPositive(n: nat)
    ensures Shl(1, n) >= 1 && (n > 0 ==> Shl(1, n) % 2 == 0 && Shl(1, n) / 2 == Shl(1, n - 1))
  {
    if n != 0 {
      ShlPositive(n - 1);
      Twice(Shl(1, n - 1));
      assert Shl(1, n) == 2 * Shl(1, n - 1);
    }
  }

  lemma Twice(x: nat)
    ensures 2 * x % 2 == 0 && 2 * x / 2 == x
  {
  }

  lemma {:induction false} ShrNext(row: nat, n: nat)
    ensures Shr(row, n + 1) == Shr(row, n) / 2
    decreases n
  {
    if n != 0 {
      ShrNext(row / 2, n - 1);
    }
  }

  /** The loop over the columns. */
  method ChooseKeys(supported: Keys, row: nat) returns (keys: Keys)
    ensures keys == Chosen(supported, row)
  {
    keys := [];
    for c := 0 to |supported|
      invariant keys + Chosen(supported[c..], Shr(row, c)) == Chosen(supported, row)
    {
      BitOfRow(row, c);
      ShrNext(row, c);
      assert supported[c..][1..] == supported[c + 1..];
      if And(row, Shl(1, c)) != 0 {
        keys := keys + [supported[c]];
      }
    }
  }

  /** The lists by weight: exactly the non-empty sets of supported keys, each as its sorted list. */
  ghost predicate AllSolutions(supported: Keys, solutions: map<nat, Keys>) {
    && (forall w :: w in solutions ==> 0 < w < 8 && solutions[w] == ListOf(w) && KeySet(ListOf(w)) <= KeySet(supported))
    && forall s: set<Algorithm> {:trigger SetWeight(s)} ::
         s != {} && s <= KeySet(supported) ==> SetWeight(s) in solutions
  }

  ghost predicate OnlySolutions(supported: Keys, solutions: map<nat, Keys>) {
    forall w :: w in solutions ==> 0 < w < 8 && solutions[w] == ListOf(w) && KeySet(ListOf(w)) <= KeySet(supported)
  }

  /** The lists of the rows below `row` are there. */
  ghost predicate RowsAdded(supported: Keys, solutions: map<nat, Keys>, row: nat) {
    forall r :: 1 <= r < row && Chosen(supported, r) != [] ==> SetWeight(KeySet(Chosen(supported, r))) in solutions
  }

  lemma OnlySolutionsKept(supported: Keys, solutions: map<nat, Keys>, w: nat, keys: Keys)
    requires OnlySolutions(supported, solutions)
    requires 0 < w < 8 && keys == ListOf(w) && KeySet(ListOf(w)) <= KeySet(supported)
    ensures OnlySolutions(supported, solutions[w := keys])
  {
    var after := solutions[w := keys];
    forall v | v in after
      ensures 0 < v < 8 && after[v] == ListOf(v) && KeySet(ListOf(v)) <= KeySet(supported)
    {
      assert v == w || v in solutions;
    }
  }

  lemma RowsKept(supported: Keys, solutions: map<nat, Keys>, after: map<nat, Keys>, row: nat)
    requires RowsAdded(supported, solutions, row) && solutions.Keys <= after.Keys
    requires Chosen(supported, row) != [] ==> SetWeight(KeySet(Chosen(supported, row))) in after
    ensures RowsAdded(supported, after, row + 1)
  {
    forall r | 1 <= r < row + 1 && Chosen(supported, r) != []
      ensures SetWeight(KeySet(Chosen(supported, r))) in after
    {
      assert r == row || SetWeight(KeySet(Chosen(supported, r))) in solutions.Keys;
    }
  }

  /** The body of the outer loop. A list that is there already is not replaced. */
  method AddRow(supported: Keys, row: nat, solutions: map<nat, Keys>) returns (solutions': map<nat, Keys>)
    requires KeyList(supported) && OnlySolutions(supported, solutions) && RowsAdded(supported, solutions, row)
    ensures OnlySolutions(supported, solutions') && RowsAdded(supported, solutions', row + 1)
  {
    var keys := ChooseKeys(supported, row);
    ChosenIsList(supported, row);
    var weight := TotalWeight(keys);
    SolutionOfRow(supported, keys, weight);
    solutions' := solutions;
    if 0 < weight && weight !in solutions {
      OnlySolutionsKept(supported, solutions, weight, keys);
      solutions' := solutions[weight := keys];
    }
    RowsKept(supported, solutions, solutions', row);
  }

  lemma SolutionOfRow(supported: Keys, keys: Keys, weight: nat)
    requires KeyList(keys) && (forall i :: 0 <= i < |keys| ==> keys[i] in supported) && weight == TotalWeight(keys)
    ensures weight < 8 && keys == ListOf(weight) && weight == SetWeight(KeySet(keys))
    ensures KeySet(ListOf(weight)) <= KeySet(supported)
    ensures weight == 0 ==> keys == []
  {
    WeightDetermines(keys);
  }

  method CalculateSolutions(supported: Keys) returns (solutions: map<nat, Keys>)
    requires KeyList(supported)
    ensures AllSolutions(supported, solutions)
  {
    solutions := map[];
    var row := 1;
    while row < Shl(1, |supported|)
      invariant row >= 1 && OnlySolutions(supported, solutions) && RowsAdded(supported, solutions, row)
    {
      solutions := AddRow(supported, row, solutions);
      row := row + 1;
    }
    EverySetHasRow(supported, solutions, row);
  }

  lemma EverySetHasRow(supported: Keys, solutions: map<nat, Keys>, row: nat)
    requires RowsAdded(supported, solutions, row) && row >= Shl(1, |supported|)
    ensures forall s: set<Algorithm> {:trigger SetWeight(s)} :: s != {} && s <= KeySet(supported) ==>
              SetWeight(s) in solutions
  {
    forall s: set<Algorithm> | s != {} && s <= KeySet(supported)
      ensures SetWeight(s) in solutions
    {
      SetHasRow(supported, s);
    }
  }

  lemma SetHasRow(supported: Keys, s: set<Algorithm>)
    requires s != {} && s <= KeySet(supported)
    ensures var r := RowOf(supported, s);
            1 <= r < Shl(1, |supported|) && Chosen(supported, r) != [] && KeySet(Chosen(supported, r)) == s
  {
    RowChooses(supported, s);
    ChosenByZero(supported);
    assert s * KeySet(supported) == s;
    assert KeySet([]) == {};
  }

  lemma {:induction false} ChosenByZero(supported: Keys)
    ensures Chosen(supported, 0) == []
  {
    if supported != [] {
      ChosenByZero(supported[1..]);
    }
  }

  // ----- Choosing one -----

  /** std::set_intersection of sorted ranges. */
  function Intersection(a: Keys, b: Keys): Keys
    decreases |a| + |b|
  {
    if a == [] || b == [] then []
    else if a[0].Rank() < b[0].Rank() then Intersection(a[1..], b)
    else if b[0].Rank() < a[0].Rank() then Intersection(a, b[1..])
    else [a[0]] + Intersection(a[1..], b[1..])
  }

  lemma TailSorted(k: Keys)
    requires StrictlySorted(k) && k != []
    ensures StrictlySorted(k[1..]) && forall a :: a in k[1..] ==> a in k && k[0].Rank() < a.Rank()
  {
    forall i | 0 <= i < |k[1..]|
      ensures k[1..][i] == k[i + 1] && k[0].Rank() < k[i + 1].Rank()
    {
    }
  }

  lemma SameRank(a: Algorithm, b: Algorithm)
    requires a.Rank() == b.Rank()
    ensures a == b
  {
  }

  /** The intersection is as long as the second list exactly if the first contains the second. */
  lemma {:induction false} IntersectionCovers(a: Keys, b: Keys)
    requires StrictlySorted(a) && StrictlySorted(b)
    ensures |Intersection(a, b)| <= |b|
    ensures |Intersection(a, b)| == |b| <==> forall x :: x in b ==> x in a
    decreases |a| + |b|
  {
    if a == [] {
      if b != [] {
        assert b[0] in b;
      }
    } else if b != [] {
      TailSorted(a);
      TailSorted(b);
      if a[0].Rank() < b[0].Rank() {
        IntersectionCovers(a[1..], b);
        assert forall x :: x in b ==> x != a[0];
        SplitHead(a);
      } else if b[0].Rank() < a[0].Rank() {
        IntersectionCovers(a, b[1..]);
        assert b[0] in b && forall x :: x in a ==> b[0] != x;
      } else {
        SameRank(a[0], b[0]);
        IntersectionCovers(a[1..], b[1..]);
        SplitHead(a);
        SplitHead(b);
      }
    }
  }

  lemma SplitHead(k: Keys)
    requires k != []
    ensures forall x :: x in k <==> x == k[0] || x in k[1..]
  {
    assert k == [k[0]] + k[1..];
  }

  predicate AcceptsCredential(solution: Keys, c: Credential) {
    c.keys != [] && forall a :: a in c.keys ==> a in solution
  }

  ghost predicate AcceptsNym(solution: Keys, r: NymKeys) {
    forall j :: 0 <= j < |r.credentials| ==> AcceptsCredential(solution, r.credentials[j])
  }

  ghost predicate AcceptsAll(solution: Keys, requirements: seq<NymKeys>) {
    forall i :: 0 <= i < |requirements| ==> AcceptsNym(solution, requirements[i])
  }

  /** The key is the first one of a credential of that recipient with that id. */
  ghost predicate FirstKeyOf(requirements: seq<NymKeys>, nym: nat, id: nat, key: Algorithm) {
    exists i, j :: 0 <= i < |requirements| && 0 <= j < |requirements[i].credentials| && requirements[i].nym == nym
                   && HasFirstKey(requirements[i].credentials[j], id, key)
  }

  predicate HasFirstKey(c: Credential, id: nat, key: Algorithm) {
    c.id == id && c.keys != [] && c.keys[0] == key
  }

  /** Every entry of the row is the first key of its credential. */
  ghost predicate RowFrom(requirements: seq<NymKeys>, nym: nat, row: map<nat, Algorithm>) {
    forall id :: id in row ==> FirstKeyOf(requirements, nym, id, row[id])
  }

  ghost predicate MapFrom(requirements: seq<NymKeys>, m: Solution) {
    forall nym :: nym in m ==> RowFrom(requirements, nym, m[nym])
  }

  /** Every credential of the recipient has an entry. */
  ghost predicate NymMapped(m: Solution, r: NymKeys) {
    r.nym in m && forall j :: 0 <= j < |r.credentials| ==> r.credentials[j].id in m[r.nym]
  }

  /** Every credential is mapped, and to the first key of a credential with its ids. */
  ghost predicate AllMapped(m: Solution, requirements: seq<NymKeys>) {
    MapFrom(requirements, m) && forall i :: 0 <= i < |requirements| ==> NymMapped(m, requirements[i])
  }

  /** The inner loop: one nym. An entry that is there already is not replaced. */
  method TestNym(solution: Keys, requirements: seq<NymKeys>, i: nat, row: map<nat, Algorithm>)
    returns (ok: bool, row': map<nat, Algorithm>)
    requires i < |requirements| && StrictlySorted(solution) && RowFrom(requirements, requirements[i].nym, row)
    requires forall j :: 0 <= j < |requirements[i].credentials| ==> StrictlySorted(requirements[i].credentials[j].keys)
    ensures ok <==> AcceptsNym(solution, requirements[i])
    ensures RowFrom(requirements, requirements[i].nym, row') && row.Keys <= row'.Keys
    ensures ok ==> forall j :: 0 <= j < |requirements[i].credentials| ==> requirements[i].credentials[j].id in row'
  {
    var r := requirements[i];
    row' := row;
    for j := 0 to |r.credentials|
      invariant RowFrom(requirements, r.nym, row') && row.Keys <= row'.Keys
      invariant forall k :: 0 <= k < j ==> AcceptsCredential(solution, r.credentials[k])
      invariant forall k :: 0 <= k < j ==> r.credentials[k].id in row'
    {
      var c := r.credentials[j];
      if |c.keys| == 0 {
        return false, row';
      }
      var test := Intersection(solution, c.keys);
      IntersectionCovers(solution, c.keys);
      if |test| != |c.keys| {
        return false, row';
      }
      if c.id !in row' {
        assert HasFirstKey(c, c.id, c.keys[0]);
        row' := row'[c.id := c.keys[0]];
      }
    }
    ok := true;
  }

  /** test_solution. */
  method TestSolution(solution: Keys, requirements: seq<NymKeys>) returns (ok: bool, m: Solution)
    requires StrictlySorted(solution) && WellFormed(requirements)
    ensures ok <==> AcceptsAll(solution, requirements)
    ensures ok ==> AllMapped(m, requirements)
  {
    m := map[];
    for i := 0 to |requirements|
      invariant MapFrom(requirements, m)
      invariant forall k :: 0 <= k < i ==> AcceptsNym(solution, requirements[k]) && NymMapped(m, requirements[k])
    {
      var r := requirements[i];
      var row := if r.nym in m then m[r.nym] else map[];
      var row';
      ok, row' := TestNym(solution, requirements, i, row);
      if !ok {
        return;
      }
      m := m[r.nym := row'];
    }
    ok := true;
  }

  /** No two credentials have both ids in common. */
  ghost predicate DistinctIds(requirements: seq<NymKeys>) {
    forall i, j, k, l |
      && 0 <= i < |requirements| && 0 <= j < |requirements[i].credentials|
      && 0 <= k < |requirements| && 0 <= l < |requirements[k].credentials|
      && requirements[i].nym == requirements[k].nym
      && requirements[i].credentials[j].id == requirements[k].credentials[l].id ::
      i == k && j == l
  }

  /** Then every credential is mapped to its own first key. */
  lemma MappedToOwnKey(m: Solution, requirements: seq<NymKeys>, i: nat, j: nat)
    requires AllMapped(m, requirements) && DistinctIds(requirements)
    requires i < |requirements| && j < |requirements[i].credentials|
    ensures MappedToOwn(m, requirements[i].nym, requirements[i].credentials[j])
  {
    var r, c := requirements[i], requirements[i].credentials[j];
    assert NymMapped(m, r) && RowFrom(requirements, r.nym, m[r.nym]);
    var k, l :| 0 <= k < |requirements| && 0 <= l < |requirements[k].credentials| && requirements[k].nym == r.nym
                && HasFirstKey(requirements[k].credentials[l], c.id, m[r.nym][c.id]);
  }

  // ----- The choice -----

  /** All keys that some credential requires. */
  ghost function Required(requirements: seq<NymKeys>): set<Algorithm> {
    set i, j, a |
      && 0 <= i < |requirements| && 0 <= j < |requirements[i].credentials|
      && a in requirements[i].credentials[j].keys ::
      a
  }

  ghost predicate NoEmptyList(requirements: seq<NymKeys>) {
    forall i, j :: 0 <= i < |requirements| && 0 <= j < |requirements[i].credentials| ==>
      requirements[i].credentials[j].keys != []
  }

  ghost predicate NoEmptyNym(requirements: seq<NymKeys>) {
    forall i :: 0 <= i < |requirements| ==> requirements[i].credentials != []
  }

  lemma AcceptsIsCovers(solution: Keys, requirements: seq<NymKeys>)
    ensures AcceptsAll(solution, requirements)
            <==> NoEmptyList(requirements) && Required(requirements) <= KeySet(solution)
  {
    if NoEmptyList(requirements) && Required(requirements) <= KeySet(solution) {
      forall i, j | 0 <= i < |requirements| && 0 <= j < |requirements[i].credentials|
        ensures AcceptsCredential(solution, requirements[i].credentials[j])
      {
        forall a | a in requirements[i].credentials[j].keys
          ensures a in solution
        {
          assert a in Required(requirements);
        }
      }
    }
    if AcceptsAll(solution, requirements) {
      forall i, j | 0 <= i < |requirements| && 0 <= j < |requirements[i].credentials|
        ensures AcceptsCredential(solution, requirements[i].credentials[j])
      {
        assert AcceptsNym(solution, requirements[i]);
      }
    }
  }

  /** The weight is the least of an acceptable list. */
  ghost predicate NoneBelow(solutions: map<nat, Keys>, requirements: seq<NymKeys>, w: nat) {
    forall v :: 0 <= v < w && v in solutions ==> !AcceptsAll(solutions[v], requirements)
  }

  /** The loop of find_solution: the lists are tried by increasing weight. */
  method LightestSolution(solutions: map<nat, Keys>, requirements: seq<NymKeys>) returns (w: nat, m: Solution)
    requires WellFormed(requirements) && forall v :: v in solutions ==> v < 8 && StrictlySorted(solutions[v])
    ensures NoneBelow(solutions, requirements, w) && w <= 8
    ensures w < 8 ==> w in solutions && AcceptsAll(solutions[w], requirements) && AllMapped(m, requirements)
  {
    m, w := map[], 0;
    while w < 8
      invariant 0 <= w <= 8 && NoneBelow(solutions, requirements, w)
    {
      if w in solutions {
        var ok;
        ok, m := TestSolution(solutions[w], requirements);
        if ok {
          return;
        }
      }
      w := w + 1;
    }
  }

  /** The list is of the least weight among the supported lists that have every required key. */
  ghost predicate IsLightest(supported: Keys, requirements: seq<NymKeys>, keys: Keys) {
    forall s: set<Algorithm> {:trigger SetWeight(s)} ::
      s != {} && s <= KeySet(supported) && Required(requirements) <= s ==> SetWeight(KeySet(keys)) <= SetWeight(s)
  }

  /** There is a list that has them all. */
  ghost predicate Solvable(supported: Keys, requirements: seq<NymKeys>) {
    && NoEmptyNym(requirements) && NoEmptyList(requirements)
    && Required(requirements) <= KeySet(supported) && supported != []
  }

  /**
   find_solution: calculate_requirements throws when a recipient has no credentials, which leaves the empty list; else
   the lightest acceptable list is taken.
   */
  method FindSolution(supported: Keys, requirements: seq<NymKeys>) returns (keys: Keys, m: Solution)
    requires KeyList(supported) && WellFormed(requirements)
    ensures KeyList(keys) && KeySet(keys) <= KeySet(supported)
    ensures keys != [] ==>
              AcceptsAll(keys, requirements) && AllMapped(m, requirements) && IsLightest(supported, requirements, keys)
    ensures keys != [] <==> Solvable(supported, requirements)
  {
    keys, m := [], map[];
    if exists i :: 0 <= i < |requirements| && requirements[i].credentials == [] {
      return;
    }
    var solutions := CalculateSolutions(supported);
    SolutionsAreLists(supported, solutions);
    var w;
    w, m := LightestSolution(solutions, requirements);
    if w < 8 {
      keys := solutions[w];
      LightestFound(supported, solutions, requirements, w);
    } else {
      NothingFound(supported, solutions, requirements);
    }
  }

  lemma SolutionsAreLists(supported: Keys, solutions: map<nat, Keys>)
    requires AllSolutions(supported, solutions)
    ensures forall v :: v in solutions ==> v < 8 && KeyList(solutions[v]) && KeySet(solutions[v]) <= KeySet(supported)
  {
    forall v | v in solutions
      ensures v < 8 && KeyList(solutions[v])
    {
      ListFacts(v);
    }
  }

  lemma SolutionOfSet(supported: Keys, solutions: map<nat, Keys>, s: set<Algorithm>)
    requires KeyList(supported) && AllSolutions(supported, solutions) && s != {} && s <= KeySet(supported)
    ensures SetWeight(s) in solutions && KeySet(solutions[SetWeight(s)]) == s
  {
    ListOfSet(s);
  }

  lemma LightestFound(supported: Keys, solutions: map<nat, Keys>, requirements: seq<NymKeys>, w: nat)
    requires KeyList(supported) && AllSolutions(supported, solutions) && w in solutions
             && AcceptsAll(solutions[w], requirements)
    requires NoneBelow(solutions, requirements, w)
    ensures solutions[w] != [] && SetWeight(KeySet(solutions[w])) == w
            && IsLightest(supported, requirements, solutions[w])
    ensures NoEmptyList(requirements) && Required(requirements) <= KeySet(supported) && supported != []
  {
    ListFacts(w);
    AcceptsIsCovers(solutions[w], requirements);
    assert KeySet([]) == {};
    forall s: set<Algorithm> | s != {} && s <= KeySet(supported) && Required(requirements) <= s
      ensures w <= SetWeight(s)
    {
      SolutionOfSet(supported, solutions, s);
      AcceptsIsCovers(solutions[SetWeight(s)], requirements);
    }
  }

  lemma NothingFound(supported: Keys, solutions: map<nat, Keys>, requirements: seq<NymKeys>)
    requires KeyList(supported) && AllSolutions(supported, solutions) && NoneBelow(solutions, requirements, 8)
    ensures !Solvable(supported, requirements)
  {
    if supported != [] {
      assert supported[0] in KeySet(supported);
      SolutionOfSet(supported, solutions, KeySet(supported));
      AcceptsIsCovers(solutions[SetWeight(KeySet(supported))], requirements);
    }
  }

  /** With recipients, the lightest list is exactly the sorted list of the required keys. */
  lemma LightestIsRequired(supported: Keys, requirements: seq<NymKeys>, keys: Keys)
    requires KeyList(supported) && KeyList(keys) && KeySet(keys) <= KeySet(supported) && keys != []
    requires requirements != [] && NoEmptyNym(requirements) && AcceptsAll(keys, requirements)
    requires IsLightest(supported, requirements, keys)
    ensures KeySet(keys) == Required(requirements) && keys == ListOf(SetWeight(Required(requirements)))
  {
    AcceptsIsCovers(keys, requirements);
    var c := requirements[0].credentials[0];
    assert c.keys[0] in c.keys && c.keys[0] in Required(requirements);
    assert forall a :: a in KeySet(keys) ==> Usable(a);
    WeightMonotone(Required(requirements), KeySet(keys));
    WeightDetermines(keys);
  }

  // ----- With the key types of the library -----

  /** The library was built to generate keys of this type. */
  predicate Enabled(a: Algorithm, legacy: bool, secp256k1: bool, ed25519: bool) {
    (a == Legacy && legacy) || (a == Secp256k1 && secp256k1) || (a == ED25519 && ed25519)
  }

  lemma SupportedIsEnabled(legacy: bool, secp256k1: bool, ed25519: bool)
    ensures forall a :: a in KeySet(Supported(legacy, secp256k1, ed25519)) <==> Enabled(a, legacy, secp256k1, ed25519)
  {
    forall a
      ensures a in Supported(legacy, secp256k1, ed25519) <==> Enabled(a, legacy, secp256k1, ed25519)
    {
    }
  }

  /**
   find_solution over supported_ as the library builds it: for any recipients it finds the sorted list of exactly the
   required keys and maps each credential to its own first key, or finds nothing because a recipient has no credentials,
   a credential has no keys, or some required key type is not built in.
   */
  method Solve(legacy: bool, secp256k1: bool, ed25519: bool, requirements: seq<NymKeys>)
    returns (keys: Keys, m: Solution)
    requires WellFormed(requirements) && requirements != []
    ensures keys != [] <==> NoEmptyNym(requirements) && NoEmptyList(requirements)
                            && forall a :: a in Required(requirements) ==> Enabled(a, legacy, secp256k1, ed25519)
    ensures keys != [] ==> StrictlySorted(keys) && KeySet(keys) == Required(requirements)
    ensures keys != [] && DistinctIds(requirements) ==> MappedToOwnKeys(m, requirements)
  {
    var supported := Supported(legacy, secp256k1, ed25519);
    SupportedIsEnabled(legacy, secp256k1, ed25519);
    keys, m := FindSolution(supported, requirements);
    if keys != [] {
      LightestIsRequired(supported, requirements, keys);
      AllMappedToOwnKeys(m, requirements);
    } else if NoEmptyNym(requirements) && NoEmptyList(requirements) {
      SomethingRequired(supported, requirements);
    }
  }

  ghost predicate MappedToOwnKeys(m: Solution, requirements: seq<NymKeys>) {
    forall i, j :: 0 <= i < |requirements| && 0 <= j < |requirements[i].credentials| ==>
      MappedToOwn(m, requirements[i].nym, requirements[i].credentials[j])
  }

  predicate MappedToOwn(m: Solution, nym: nat, c: Credential) {
    nym in m && c.id in m[nym] && HasFirstKey(c, c.id, m[nym][c.id])
  }

  lemma AllMappedToOwnKeys(m: Solution, requirements: seq<NymKeys>)
    requires AllMapped(m, requirements)
    ensures DistinctIds(requirements) ==> MappedToOwnKeys(m, requirements)
  {
    if DistinctIds(requirements) {
      forall i, j | 0 <= i < |requirements| && 0 <= j < |requirements[i].credentials|
        ensures MappedToOwn(m, requirements[i].nym, requirements[i].credentials[j])
      {
        MappedToOwnKey(m, requirements, i, j);
      }
    }
  }

  /** Recipients with keys do require some key, so nothing is solvable with an empty supported_. */
  lemma SomethingRequired(supported: Keys, requirements: seq<NymKeys>)
    requires requirements != [] && NoEmptyNym(requirements) && NoEmptyList(requirements)
    ensures Required(requirements) <= KeySet(supported) ==> supported != []
  {
    var c := requirements[0].credentials[0];
    assert c.keys[0] in c.keys && c.keys[0] in Required(requirements);
    assert KeySet([]) == {};
  }
}
