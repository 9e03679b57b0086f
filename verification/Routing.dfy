/** Choosing the store of an upload, and the reservations of a batch of uploads
    (server/internal/store/file_records.go, server/internal/handler/upload.go). */
module Routing {
  import opened Strings
  import opened Tables

  const MAX_FILE_SIZE: nat := 100 * 1024 * 1024
  const MAX_TRIES: nat := 3

  /** An active write store and its quota columns; a limit of 0 is none. */
  datatype Store = Store(id: StoreId, gdrive: bool, quotaLimit: nat, providerLimit: nat, used: nat)

  /** A store_routing_policies row. */
  datatype Policy = Policy(mode: string, priority: seq<StoreId>, cursor: int)

  /** The active write stores in read_priority order, the primary, and the mode. */
  datatype Net = Net(stores: seq<Store>, primary: Option<Store>, replicate: bool)

  type Reservations = map<StoreId, nat>

  datatype Candidate = Candidate(store: Store, avail: int)

  function Limit(s: Store): nat { if s.gdrive then s.providerLimit else s.quotaLimit }

  function Reserved(reserved: Reservations, s: StoreId): nat { if s in reserved then reserved[s] else 0 }

  /** The space the router believes a store has left. */
  function Avail(s: Store, reserved: Reservations): int {
    (if Limit(s) > 0 then Limit(s) else MAX_INT64) - s.used - Reserved(reserved, s.id)
  }

  function Candidates(stores: seq<Store>, reserved: Reservations): (cs: seq<Candidate>)
    ensures |cs| == |stores|
  {
    if stores == [] then []
    else
      Candidates(stores[..|stores| - 1], reserved)
      + [Candidate(stores[|stores| - 1], Avail(stores[|stores| - 1], reserved))]
  }

  /** The candidates with room for `size`, in order. */
  function Eligible(cs: seq<Candidate>, size: nat): seq<Candidate> {
    if cs == [] then []
    else Eligible(cs[..|cs| - 1], size) + if cs[|cs| - 1].avail >= size then [cs[|cs| - 1]] else []
  }

  /** i is the first of the candidates with the most space. */
  predicate IsFirstMax(cs: seq<Candidate>, i: int) {
    && 0 <= i < |cs|
    && (forall j :: 0 <= j < |cs| ==> cs[j].avail <= cs[i].avail)
    && (forall j :: 0 <= j < i ==> cs[j].avail < cs[i].avail)
  }

  function FirstMax(cs: seq<Candidate>): (i: nat)
    requires cs != []
    ensures i < |cs|
  {
    if |cs| == 1 then 0
    else
      var i := FirstMax(cs[..|cs| - 1]);
      if cs[|cs| - 1].avail > cs[i].avail then |cs| - 1 else i
  }

  /** Go's % truncates towards zero; a negative index is clamped to 0. */
  function TruncMod(a: int, n: nat): int
    requires n > 0
  {
    if a >= 0 then a % n else -((-a) % n)
  }

  function Turn(cursor: int, n: nat): (i: nat)
    requires n > 0
    ensures i < n
  {
    if TruncMod(cursor, n) < 0 then 0 else TruncMod(cursor, n)
  }

  /** The first candidate with this store id. */
  function WithId(el: seq<Candidate>, id: StoreId): Option<Store> {
    if el == [] then None else if el[0].store.id == id then Some(el[0].store) else WithId(el[1..], id)
  }

  function FirstListed(priority: seq<StoreId>, el: seq<Candidate>): Option<Store> {
    if priority == [] then None
    else match WithId(el, priority[0])
      case Some(s) => Some(s)
      case None => FirstListed(priority[1..], el)
  }

  /** The switch on the policy's mode: the chosen store, and the policy row left. */
  function ByPolicy(policy: Option<Policy>, cs: seq<Candidate>, el: seq<Candidate>): (Store, Option<Policy>)
    requires cs != []
  {
    var mode := if policy.Some? then policy.value.mode else "most_available";
    if mode == "round_robin" && el != [] then
      (el[Turn(policy.value.cursor, |el|)].store, Some(policy.value.(cursor := policy.value.cursor + 1)))
    else if mode == "priority" && el != [] then
      match FirstListed(policy.value.priority, el)
      case Some(s) => (s, policy)
      case None => (el[FirstMax(el)].store, policy)
    else (cs[FirstMax(cs)].store, policy)
  }

  /** The chosen store, or None for an error, and the policy row left. */
  function Resolve(net: Net, policy: Option<Policy>, reserved: Reservations, size: nat)
    : (Option<Store>, Option<Policy>)
  {
    if net.replicate then (net.primary, policy)
    else if net.stores == [] then (None, policy)
    else
      var cs := Candidates(net.stores, reserved);
      var (s, p) := ByPolicy(policy, cs, Eligible(cs, size));
      (Some(s), p)
  }

  // -------------------------------------------------------------- what is chosen

  lemma {:induction false} CandidatesAre(stores: seq<Store>, reserved: Reservations)
    ensures var cs := Candidates(stores, reserved);
            forall i :: 0 <= i < |cs| ==> cs[i] == Candidate(stores[i], Avail(stores[i], reserved))
  {
    if stores != [] { CandidatesAre(stores[..|stores| - 1], reserved); }
  }

  lemma {:induction false} EligibleAre(cs: seq<Candidate>, size: nat)
    ensures forall c :: c in Eligible(cs, size) <==> c in cs && c.avail >= size
  {
    if cs != [] {
      EligibleAre(cs[..|cs| - 1], size);
      assert cs == cs[..|cs| - 1] + [cs[|cs| - 1]];
    }
  }

  ghost predicate SomeFits(stores: seq<Store>, reserved: Reservations, size: nat) {
    exists s :: s in stores && Avail(s, reserved) >= size
  }

  lemma WithIdFinds(el: seq<Candidate>, id: StoreId)
    ensures match WithId(el, id)
            case Some(s) => s.id == id && exists c :: c in el && c.store == s
            case None => forall c :: c in el ==> c.store.id != id
  {
    if el != [] && el[0].store.id != id { WithIdFinds(el[1..], id); }
  }

  lemma {:induction false} FirstMaxIsFirst(cs: seq<Candidate>)
    requires cs != []
    ensures IsFirstMax(cs, FirstMax(cs))
  {
    if |cs| > 1 { FirstMaxIsFirst(cs[..|cs| - 1]); }
  }

  /** The choice is the eligible store listed first. */
  lemma FirstListedIsFirst(priority: seq<StoreId>, el: seq<Candidate>)
    ensures match FirstListed(priority, el)
            case Some(s) =>
              && (exists c :: c in el && c.store == s)
              && (exists i ::
                    && 0 <= i < |priority| && priority[i] == s.id
                    && forall j, c :: 0 <= j < i && c in el ==> c.store.id != priority[j])
            case None => forall i, c :: 0 <= i < |priority| && c in el ==> c.store.id != priority[i]
  {
    if priority != [] {
      WithIdFinds(el, priority[0]);
      FirstListedIsFirst(priority[1..], el);
      var rest := FirstListed(priority[1..], el);
      if WithId(el, priority[0]).None? && rest.Some? {
        var i :| 0 <= i < |priority[1..]| && priority[1..][i] == rest.value.id
                 && forall j, c :: 0 <= j < i && c in el ==> c.store.id != priority[1..][j];
        assert priority[i + 1] == rest.value.id;
        forall j, c | 0 <= j < i + 1 && c in el ensures c.store.id != priority[j] {
          if j > 0 { assert priority[j] == priority[1..][j - 1]; }
        }
      } else if WithId(el, priority[0]).None? {
        forall i, c | 0 <= i < |priority| && c in el ensures c.store.id != priority[i] {
          if i > 0 { assert priority[i] == priority[1..][i - 1]; }
        }
      }
    }
  }

  /** Whatever the policy, the choice is a candidate, and an eligible one if
      there is any. */
  lemma ChoiceIsEligible(policy: Option<Policy>, cs: seq<Candidate>, size: nat)
    requires cs != []
    ensures var r := ByPolicy(policy, cs, Eligible(cs, size)).0;
            exists c :: c in cs && c.store == r && ((exists d :: d in cs && d.avail >= size) ==> c.avail >= size)
  {
    var el := Eligible(cs, size);
    var r := ByPolicy(policy, cs, el).0;
    EligibleAre(cs, size);
    if el != [] && policy.Some? && policy.value.mode == "priority" && FirstListed(policy.value.priority, el).Some? {
      FirstListedIsFirst(policy.value.priority, el);
      var c :| c in el && c.store == r;
    } else if el != [] && policy.Some? && policy.value.mode in {"priority", "round_robin"} {
      var c :| c in el && c.store == r;
    } else {
      var c := cs[FirstMax(cs)];
      FirstMaxIsFirst(cs);
      assert c in cs && c.store == r;
      assert forall d :: d in cs ==> exists i :: 0 <= i < |cs| && cs[i] == d;
    }
  }

  /** In cumulative mode, under every policy, an upload goes to an active write
      store, and to one with room for it exactly when some store has room. */
  lemma ChoiceFitsIffSomeFits(net: Net, policy: Option<Policy>, reserved: Reservations, size: nat)
    requires !net.replicate
    ensures var r := Resolve(net, policy, reserved, size).0;
            && (r.Some? <==> net.stores != [])
            && (r.Some? ==>
                r.value in net.stores && (Avail(r.value, reserved) >= size <==> SomeFits(net.stores, reserved, size)))
  {
    if net.stores != [] {
      var cs := Candidates(net.stores, reserved);
      ChoiceIsEligible(policy, cs, size);
      var r := ByPolicy(policy, cs, Eligible(cs, size)).0;
      var c :| c in cs && c.store == r && ((exists d :: d in cs && d.avail >= size) ==> c.avail >= size);
      CandidateIsStore(net.stores, reserved, cs, c);
      if SomeFits(net.stores, reserved, size) {
        var s :| s in net.stores && Avail(s, reserved) >= size;
        StoreIsCandidate(net.stores, reserved, cs, s);
      }
    }
  }

  lemma CandidateIsStore(stores: seq<Store>, reserved: Reservations, cs: seq<Candidate>, c: Candidate)
    requires cs == Candidates(stores, reserved) && c in cs
    ensures c.store in stores && c.avail == Avail(c.store, reserved)
  {
    CandidatesAre(stores, reserved);
    var i :| 0 <= i < |cs| && cs[i] == c;
    assert stores[i] in stores;
  }

  lemma StoreIsCandidate(stores: seq<Store>, reserved: Reservations, cs: seq<Candidate>, s: Store)
    requires cs == Candidates(stores, reserved) && s in stores
    ensures Candidate(s, Avail(s, reserved)) in cs
  {
    CandidatesAre(stores, reserved);
    var j :| 0 <= j < |stores| && stores[j] == s;
    assert cs[j] in cs;
  }

  ghost predicate MostRoom(stores: seq<Store>, reserved: Reservations, r: Store) {
    r in stores && forall s :: s in stores ==> Avail(s, reserved) <= Avail(r, reserved)
  }

  /** The most available of the eligible candidates is the most available of all. */
  lemma FirstMaxHasMostRoom(stores: seq<Store>, reserved: Reservations, el: seq<Candidate>, size: nat)
    requires var cs := Candidates(stores, reserved); el != [] && (el == cs || el == Eligible(cs, size))
    ensures MostRoom(stores, reserved, el[FirstMax(el)].store)
  {
    var cs := Candidates(stores, reserved);
    CandidatesAre(stores, reserved);
    EligibleAre(cs, size);
    FirstMaxIsFirst(el);
    var best := el[FirstMax(el)];
    assert best in el && best in cs;
    forall s | s in stores ensures Avail(s, reserved) <= best.avail {
      var j :| 0 <= j < |stores| && stores[j] == s;
      assert cs[j] in cs && cs[j].avail == Avail(s, reserved);
      if cs[j] in el { assert exists k :: 0 <= k < |el| && el[k] == cs[j]; }
    }
  }

  /** Under the default policy an upload goes to the store with the most room. */
  lemma DefaultPicksMostRoom(net: Net, policy: Option<Policy>, reserved: Reservations, size: nat)
    requires !net.replicate && net.stores != [] && (policy.None? || policy.value.mode !in {"round_robin", "priority"})
    ensures Resolve(net, policy, reserved, size).0.Some?
            && MostRoom(net.stores, reserved, Resolve(net, policy, reserved, size).0.value)
  {
    FirstMaxHasMostRoom(net.stores, reserved, Candidates(net.stores, reserved), size);
  }

  /** r is listed, has room, and no store listed before it has room. */
  ghost predicate FirstListedWithRoom(stores: seq<Store>, reserved: Reservations, size: nat, priority: seq<StoreId>,
                                      r: Store) {
    && r in stores && Avail(r, reserved) >= size
    && exists i :: 0 <= i < |priority| && priority[i] == r.id && NoneBefore(stores, reserved, size, priority, i)
  }

  ghost predicate NoneBefore(stores: seq<Store>, reserved: Reservations, size: nat, priority: seq<StoreId>, i: nat)
    requires i <= |priority|
  {
    forall j, s :: 0 <= j < i && s in stores && s.id == priority[j] ==> Avail(s, reserved) < size
  }

  lemma ListedEligible(stores: seq<Store>, reserved: Reservations, size: nat, priority: seq<StoreId>)
    ensures var el := Eligible(Candidates(stores, reserved), size);
            match FirstListed(priority, el)
            case Some(r) => FirstListedWithRoom(stores, reserved, size, priority, r)
            case None => NoneBefore(stores, reserved, size, priority, |priority|)
  {
    var cs := Candidates(stores, reserved);
    var el := Eligible(cs, size);
    CandidatesAre(stores, reserved);
    EligibleAre(cs, size);
    FirstListedIsFirst(priority, el);
    forall s | s in stores && Avail(s, reserved) >= size ensures Candidate(s, Avail(s, reserved)) in el {
      var j :| 0 <= j < |stores| && stores[j] == s;
      assert cs[j] in cs;
    }
    var listed := FirstListed(priority, el);
    if listed.Some? {
      var r := listed.value;
      var c :| c in el && c.store == r;
      assert exists j :: 0 <= j < |cs| && cs[j] == c;
      var i :| 0 <= i < |priority| && priority[i] == r.id
               && forall j, c :: 0 <= j < i && c in el ==> c.store.id != priority[j];
      assert NoneBefore(stores, reserved, size, priority, i);
    }
  }

  /** Under the priority policy an upload goes to the first listed store with
      room; if no listed store has room, to the store with the most room. */
  lemma PriorityPicksFirstListed(net: Net, policy: Policy, reserved: Reservations, size: nat)
    requires !net.replicate && net.stores != [] && policy.mode == "priority"
    ensures Resolve(net, Some(policy), reserved, size).0.Some?
    ensures var r := Resolve(net, Some(policy), reserved, size).0.value;
            || FirstListedWithRoom(net.stores, reserved, size, policy.priority, r)
            || (NoneBefore(net.stores, reserved, size, policy.priority, |policy.priority|)
                && MostRoom(net.stores, reserved, r))
  {
    var cs := Candidates(net.stores, reserved);
    var el := Eligible(cs, size);
    ListedEligible(net.stores, reserved, size, policy.priority);
    if el != [] {
      FirstMaxHasMostRoom(net.stores, reserved, el, size);
    } else {
      FirstMaxHasMostRoom(net.stores, reserved, cs, size);
      NoneListedInNothing(policy.priority);
    }
  }

  lemma {:induction false} NoneListedInNothing(priority: seq<StoreId>)
    ensures FirstListed(priority, []) == None
  {
    if priority != [] { NoneListedInNothing(priority[1..]); }
  }

  // ------------------------------------------------- the choice, told by the columns

  /** The space a store has left by its columns: a Google Drive store counts
      against the provider's limit, any other against its own; without a limit
      it counts against the largest int64. */
  ghost function Left(s: Store, reserved: Reservations): int {
    (if s.gdrive && s.providerLimit > 0 then s.providerLimit
     else if !s.gdrive && s.quotaLimit > 0 then s.quotaLimit
     else 0x7FFF_FFFF_FFFF_FFFF)
    - s.used - if s.id in reserved then reserved[s.id] else 0
  }

  /** Store j is the first of those with the most space left. */
  ghost predicate FirstMost(stores: seq<Store>, reserved: Reservations, j: int) {
    && 0 <= j < |stores|
    && (forall i :: 0 <= i < |stores| ==> Left(stores[i], reserved) <= Left(stores[j], reserved))
    && (forall i :: 0 <= i < j ==> Left(stores[i], reserved) < Left(stores[j], reserved))
  }

  /** idx are the positions of the stores with room, in order. */
  ghost predicate WithRoom(stores: seq<Store>, reserved: Reservations, size: nat, idx: seq<nat>) {
    && (forall k :: 0 <= k < |idx| ==> idx[k] < |stores| && Left(stores[idx[k]], reserved) >= size)
    && (forall k, l :: 0 <= k < l < |idx| ==> idx[k] < idx[l])
    && (forall i: nat :: i < |stores| && Left(stores[i], reserved) >= size ==> i in idx)
  }

  /** The store at the cursor's turn among those with room. */
  ghost predicate InTurn(stores: seq<Store>, reserved: Reservations, size: nat, cursor: int, r: Store) {
    exists idx: seq<nat> ::
      && WithRoom(stores, reserved, size, idx) && idx != []
      && r == stores[idx[if cursor >= 0 then cursor % |idx| else 0]]
  }

  /** Entry i of the priority list is a store with room. */
  ghost predicate RoomAt(stores: seq<Store>, reserved: Reservations, size: nat, priority: seq<StoreId>, i: int) {
    0 <= i < |priority| && exists s :: s in stores && s.id == priority[i] && Left(s, reserved) >= size
  }

  /** r is the store of the first entry of the priority list that has room. */
  ghost predicate FirstWithRoom(stores: seq<Store>, reserved: Reservations, size: nat, priority: seq<StoreId>, r: Store)
  {
    && r in stores && Left(r, reserved) >= size
    && exists i ::
       && RoomAt(stores, reserved, size, priority, i) && priority[i] == r.id
       && forall j :: 0 <= j < i ==> !RoomAt(stores, reserved, size, priority, j)
  }

  ghost predicate AnyRoom(stores: seq<Store>, reserved: Reservations, size: nat) {
    exists i :: 0 <= i < |stores| && Left(stores[i], reserved) >= size
  }

  ghost predicate AnyListed(stores: seq<Store>, reserved: Reservations, size: nat, priority: seq<StoreId>) {
    exists i :: RoomAt(stores, reserved, size, priority, i)
  }

  /** The store a request gets, and the policy row it leaves: the primary in
      replicate mode, else by the policy, which only a round-robin choice moves on. */
  ghost predicate Chosen(net: Net, policy: Option<Policy>, reserved: Reservations, size: nat, r: Option<Store>,
                         next: Option<Policy>)
  {
    if net.replicate then r == net.primary && next == policy
    else if net.stores == [] then r == None && next == policy
    else
      var mode, room := if policy.Some? then policy.value.mode else "", AnyRoom(net.stores, reserved, size);
      if mode == "round_robin" && room then
        && r.Some? && InTurn(net.stores, reserved, size, policy.value.cursor, r.value)
        && next == Some(Policy(mode, policy.value.priority, policy.value.cursor + 1))
      else if mode == "priority" && room && AnyListed(net.stores, reserved, size, policy.value.priority) then
        r.Some? && FirstWithRoom(net.stores, reserved, size, policy.value.priority, r.value) && next == policy
      else
        r.Some? && next == policy && exists j :: FirstMost(net.stores, reserved, j) && r.value == net.stores[j]
  }

  lemma AvailIsLeft(s: Store, reserved: Reservations)
    ensures Avail(s, reserved) == Left(s, reserved)
  {
  }

  /** el are the candidates at the positions idx, which are all those with enough space. */
  ghost predicate Positions(cs: seq<Candidate>, size: nat, idx: seq<nat>, el: seq<Candidate>) {
    && |idx| == |el|
    && (forall k :: 0 <= k < |idx| ==> idx[k] < |cs| && cs[idx[k]] == el[k] && el[k].avail >= size)
    && (forall k, l :: 0 <= k < l < |idx| ==> idx[k] < idx[l])
    && (forall i: nat :: i < |cs| && cs[i].avail >= size ==> i in idx)
  }

  /** The eligible candidates are those at the positions with room. */
  lemma {:induction false} EligiblePositions(cs: seq<Candidate>, size: nat, el: seq<Candidate>) returns (idx: seq<nat>)
    requires el == Eligible(cs, size)
    ensures Positions(cs, size, idx, el)
  {
    if cs == [] {
      idx := [];
    } else {
      var init, c := cs[..|cs| - 1], cs[|cs| - 1];
      assert init + [c] == cs;
      var before := EligiblePositions(init, size, Eligible(init, size));
      OnePositionMore(init, c, size, before, Eligible(init, size));
      idx := if c.avail >= size then before + [|init|] else before;
    }
  }

  lemma OnePositionMore(init: seq<Candidate>, c: Candidate, size: nat, idx: seq<nat>, el: seq<Candidate>)
    requires Positions(init, size, idx, el)
    ensures Positions(init + [c], size, if c.avail >= size then idx + [|init|] else idx,
                      el + if c.avail >= size then [c] else [])
  {
    if c.avail >= size {
      RoomyPositionMore(init, c, size, idx, el);
    } else {
      assert el + [] == el;
      assert forall i :: 0 <= i < |init| ==> (init + [c])[i] == init[i];
    }
  }

  lemma RoomyPositionMore(init: seq<Candidate>, c: Candidate, size: nat, idx: seq<nat>, el: seq<Candidate>)
    requires Positions(init, size, idx, el) && c.avail >= size
    ensures Positions(init + [c], size, idx + [|init|], el + [c])
  {
    var cs, more := init + [c], idx + [|init|];
    forall k, l | 0 <= k < l < |more| ensures more[k] < more[l] { assert l < |idx| ==> idx[k] < idx[l]; }
    forall i: nat | i < |cs| && cs[i].avail >= size ensures i in more {
      if i < |init| {
        assert cs[i] == init[i] && i in idx;
      } else {
        assert more[|idx|] == i;
      }
    }
  }

  lemma CandidatesHaveLeft(stores: seq<Store>, reserved: Reservations, cs: seq<Candidate>)
    requires cs == Candidates(stores, reserved)
    ensures forall i :: 0 <= i < |cs| ==> cs[i].store == stores[i] && cs[i].avail == Left(stores[i], reserved)
  {
    CandidatesAre(stores, reserved);
    forall i | 0 <= i < |cs| ensures cs[i].avail == Left(stores[i], reserved) { AvailIsLeft(stores[i], reserved); }
  }

  lemma EligibleWithRoom(stores: seq<Store>, reserved: Reservations, cs: seq<Candidate>, size: nat)
    returns (idx: seq<nat>)
    requires cs == Candidates(stores, reserved)
    ensures |idx| == |Eligible(cs, size)| && WithRoom(stores, reserved, size, idx)
    ensures forall k :: 0 <= k < |idx| ==> stores[idx[k]] == Eligible(cs, size)[k].store
    ensures forall k :: 0 <= k < |idx| ==> Left(stores[idx[k]], reserved) == Eligible(cs, size)[k].avail
    ensures idx == [] <==> !AnyRoom(stores, reserved, size)
  {
    idx := EligiblePositions(cs, size, Eligible(cs, size));
    CandidatesHaveLeft(stores, reserved, cs);
    PositionsWithRoom(stores, reserved, cs, size, idx, Eligible(cs, size));
  }

  lemma PositionsWithRoom(stores: seq<Store>, reserved: Reservations, cs: seq<Candidate>, size: nat, idx: seq<nat>,
                          el: seq<Candidate>)
    requires |cs| == |stores| && Positions(cs, size, idx, el)
    requires forall i :: 0 <= i < |cs| ==> cs[i].store == stores[i] && cs[i].avail == Left(stores[i], reserved)
    ensures WithRoom(stores, reserved, size, idx) && (idx == [] <==> !AnyRoom(stores, reserved, size))
    ensures forall k :: 0 <= k < |idx| ==> stores[idx[k]] == el[k].store
    ensures forall k :: 0 <= k < |idx| ==> Left(stores[idx[k]], reserved) == el[k].avail
  {
    if idx != [] { assert 0 <= idx[0] < |stores| && Left(stores[idx[0]], reserved) >= size; }
  }

  lemma FirstMaxIsFirstMost(stores: seq<Store>, reserved: Reservations, cs: seq<Candidate>)
    requires cs == Candidates(stores, reserved) && cs != []
    ensures FirstMost(stores, reserved, FirstMax(cs)) && cs[FirstMax(cs)].store == stores[FirstMax(cs)]
  {
    CandidatesHaveLeft(stores, reserved, cs);
    FirstMaxIsFirst(cs);
  }

  /** The first of the eligible with the most space is the first of all. */
  lemma EligibleMaxIsFirstMost(stores: seq<Store>, reserved: Reservations, cs: seq<Candidate>, size: nat)
    returns (j: nat)
    requires cs == Candidates(stores, reserved) && Eligible(cs, size) != []
    ensures FirstMost(stores, reserved, j) && Eligible(cs, size)[FirstMax(Eligible(cs, size))].store == stores[j]
  {
    var el := Eligible(cs, size);
    var idx := EligibleWithRoom(stores, reserved, cs, size);
    FirstMaxIsFirst(el);
    j := idx[FirstMax(el)];
    forall i: nat | i < |stores|
      ensures Left(stores[i], reserved) <= Left(stores[j], reserved)
      ensures i < j ==> Left(stores[i], reserved) < Left(stores[j], reserved)
    {
      if Left(stores[i], reserved) >= size {
        var k :| 0 <= k < |idx| && idx[k] == i;
        assert el[k].avail <= el[FirstMax(el)].avail;
        assert i < j ==> k < FirstMax(el);
      }
    }
  }

  lemma ListedIsFirstWithRoom(stores: seq<Store>, reserved: Reservations, size: nat, priority: seq<StoreId>)
    ensures match FirstListed(priority, Eligible(Candidates(stores, reserved), size))
            case Some(r) => FirstWithRoom(stores, reserved, size, priority, r)
                && AnyListed(stores, reserved, size, priority)
            case None => !AnyListed(stores, reserved, size, priority)
  {
    ListedEligible(stores, reserved, size, priority);
    forall s ensures Avail(s, reserved) == Left(s, reserved) { AvailIsLeft(s, reserved); }
    match FirstListed(priority, Eligible(Candidates(stores, reserved), size))
    case Some(r) =>
      var i :| 0 <= i < |priority| && priority[i] == r.id && NoneBefore(stores, reserved, size, priority, i);
      assert RoomAt(stores, reserved, size, priority, i);
    case None =>
  }

  /** Under every policy and in both modes the choice is the one described. */
  lemma ChoiceIsChosen(net: Net, policy: Option<Policy>, reserved: Reservations, size: nat)
    ensures var (r, next) := Resolve(net, policy, reserved, size); Chosen(net, policy, reserved, size, r, next)
  {
    if !net.replicate && net.stores != [] {
      var cs := Candidates(net.stores, reserved);
      var el := Eligible(cs, size);
      if policy.Some? && policy.value.mode == "priority" && el != [] {
        PriorityChoice(net, policy, reserved, size, cs, el);
      } else if policy.Some? && policy.value.mode == "round_robin" && el != [] {
        RoundRobinChoice(net, policy, reserved, size, cs, el);
      } else {
        OtherChoice(net, policy, reserved, size, cs, el);
      }
    }
  }

  lemma RoundRobinChoice(net: Net, policy: Option<Policy>, reserved: Reservations, size: nat, cs: seq<Candidate>,
                         el: seq<Candidate>)
    requires !net.replicate && cs == Candidates(net.stores, reserved) && el == Eligible(cs, size) && el != []
    requires policy.Some? && policy.value.mode == "round_robin" && cs != []
    ensures var (r, next) := ByPolicy(policy, cs, el); Chosen(net, policy, reserved, size, Some(r), next)
  {
    var idx := EligibleWithRoom(net.stores, reserved, cs, size);
    TakesTurn(net.stores, reserved, cs, size, policy.value.cursor);
  }

  lemma PriorityChoice(net: Net, policy: Option<Policy>, reserved: Reservations, size: nat, cs: seq<Candidate>,
                       el: seq<Candidate>)
    requires !net.replicate && cs == Candidates(net.stores, reserved) && el == Eligible(cs, size) && el != []
    requires policy.Some? && policy.value.mode == "priority" && cs != []
    ensures var (r, next) := ByPolicy(policy, cs, el); Chosen(net, policy, reserved, size, Some(r), next)
  {
    ListedIsFirstWithRoom(net.stores, reserved, size, policy.value.priority);
    if FirstListed(policy.value.priority, el).Some? {
      var idx := EligibleWithRoom(net.stores, reserved, cs, size);
    } else {
      var j := EligibleMaxIsFirstMost(net.stores, reserved, cs, size);
    }
  }

  lemma OtherChoice(net: Net, policy: Option<Policy>, reserved: Reservations, size: nat, cs: seq<Candidate>,
                    el: seq<Candidate>)
    requires !net.replicate && cs == Candidates(net.stores, reserved) && el == Eligible(cs, size) && cs != []
    requires el == [] || policy.None? || policy.value.mode !in {"round_robin", "priority"}
    ensures var (r, next) := ByPolicy(policy, cs, el); Chosen(net, policy, reserved, size, Some(r), next)
  {
    var idx := EligibleWithRoom(net.stores, reserved, cs, size);
    FirstMaxIsFirstMost(net.stores, reserved, cs);
  }

  lemma TakesTurn(stores: seq<Store>, reserved: Reservations, cs: seq<Candidate>, size: nat, cursor: int)
    requires cs == Candidates(stores, reserved) && Eligible(cs, size) != []
    ensures var el := Eligible(cs, size); InTurn(stores, reserved, size, cursor, el[Turn(cursor, |el|)].store)
  {
    var el := Eligible(cs, size);
    var idx := EligibleWithRoom(stores, reserved, cs, size);
    TurnIs(cursor, |el|);
    assert stores[idx[Turn(cursor, |el|)]] == el[Turn(cursor, |el|)].store;
  }

  lemma TurnIs(cursor: int, n: nat)
    requires n > 0
    ensures Turn(cursor, n) == if cursor >= 0 then cursor % n else 0
  {
  }

  // ---------------------------------------------------------------- round robin

  /** A round-robin policy row resolved m times from its cursor: the turns taken. */
  function Turns(cursor: int, n: nat, m: nat): (ts: seq<nat>)
    requires n > 0
    ensures |ts| == m && forall k :: 0 <= k < m ==> ts[k] < n
  {
    if m == 0 then [] else Turns(cursor, n, m - 1) + [Turn(cursor + m - 1, n)]
  }

  function Count<T(==)>(xs: seq<T>, x: T): nat {
    if xs == [] then 0 else Count(xs[..|xs| - 1], x) + if xs[|xs| - 1] == x then 1 else 0
  }

  /** How many of 0, …, t - 1 are i modulo n. */
  function Hits(t: nat, n: nat, i: nat): nat
    requires i < n
  {
    t / n + if t % n > i then 1 else 0
  }

  lemma DivStep(t: nat, n: nat)
    requires n > 0
    ensures if t % n == n - 1 then (t + 1) / n == t / n + 1 && (t + 1) % n == 0
            else (t + 1) / n == t / n && (t + 1) % n == t % n + 1
  {
    var q, r := t / n, t % n;
    if r == n - 1 { DivUnique(t + 1, n, q + 1, 0); } else { DivUnique(t + 1, n, q, r + 1); }
  }

  lemma MulAdd(a: int, b: int, n: int)
    ensures (a + b) * n == a * n + b * n
  {
  }

  lemma Multiples(d: int, n: nat)
    ensures d >= 1 ==> d * n >= n
    ensures d <= -1 ==> d * n <= 0 - n
  {
  }

  lemma DivUnique(t: nat, n: nat, q: nat, r: nat)
    requires n > 0 && r < n && t == q * n + r
    ensures t / n == q && t % n == r
  {
    var p, s := t / n, t % n;
    MulAdd(p - q, q, n);
    Multiples(p - q, n);
  }

  lemma {:induction false} CountIsHits(c: nat, n: nat, m: nat, i: nat)
    requires i < n
    ensures Count(Turns(c, n, m), i) == Hits(c + m, n, i) - Hits(c, n, i)
  {
    if m > 0 {
      CountIsHits(c, n, m - 1, i);
      HitsStep(c + m - 1, n, i);
      assert Turns(c, n, m)[..m - 1] == Turns(c, n, m - 1);
    }
  }

  lemma HitsStep(t: nat, n: nat, i: nat)
    requires i < n
    ensures Hits(t + 1, n, i) == Hits(t, n, i) + if Turn(t, n) == i then 1 else 0
  {
    DivStep(t, n);
  }

  ghost predicate Balanced(count: nat, m: nat, n: nat)
    requires n > 0
  {
    m / n <= count <= (m + n - 1) / n
  }

  lemma DivSum(c: nat, m: nat, n: nat)
    requires n > 0
    ensures if c % n + m % n < n then (c + m) / n == c / n + m / n && (c + m) % n == c % n + m % n
            else (c + m) / n == c / n + m / n + 1 && (c + m) % n == c % n + m % n - n
  {
    SumOf(c, m, n, c / n, c % n, m / n, m % n);
  }

  lemma SumOf(c: nat, m: nat, n: nat, q: nat, r: nat, p: nat, s: nat)
    requires r < n && s < n && c == q * n + r && m == p * n + s
    ensures if r + s < n then (c + m) / n == q + p && (c + m) % n == r + s
            else (c + m) / n == q + p + 1 && (c + m) % n == r + s - n
  {
    MulAdd(q, p, n);
    MulAdd(q + p, 1, n);
    if r + s < n { DivUnique(c + m, n, q + p, r + s); } else { DivUnique(c + m, n, q + p + 1, r + s - n); }
  }

  lemma CeilDiv(m: nat, n: nat)
    requires n > 0
    ensures (m + n - 1) / n == m / n + if m % n > 0 then 1 else 0
  {
    var p, s := m / n, m % n;
    MulAdd(p, 1, n);
    if s > 0 { DivUnique(m + n - 1, n, p + 1, s - 1); } else { DivUnique(m + n - 1, n, p, n - 1); }
  }

  lemma HitsBalanced(c: nat, n: nat, m: nat, i: nat)
    requires i < n
    ensures Hits(c + m, n, i) >= Hits(c, n, i) && Balanced(Hits(c + m, n, i) - Hits(c, n, i), m, n)
  {
    DivSum(c, m, n);
    CeilDiv(m, n);
  }

  /** m successive turns give each of n stores its share, floor(m/n) or
      ceil(m/n), for every m, exactly when the cursor is not negative or there
      is one store. */
  lemma RoundRobinIsFairIff(c: int, n: nat)
    requires n > 0
    ensures (forall m: nat, i: nat :: i < n ==> Balanced(Count(Turns(c, n, m), i), m, n)) <==> c >= 0 || n == 1
  {
    if c >= 0 {
      forall m: nat, i: nat | i < n ensures Balanced(Count(Turns(c, n, m), i), m, n) {
        CountIsHits(c, n, m, i);
        HitsBalanced(c, n, m, i);
      }
    } else if n == 1 {
      forall m: nat, i: nat | i < n ensures Balanced(Count(Turns(c, n, m), i), m, n) { OneStoreTakesAll(c, m); }
    } else {
      NegativeCursorSticks(c, n);
      assert !Balanced(Count(Turns(c, n, 2), 0), 2, n);
    }
  }

  lemma {:induction false} OneStoreTakesAll(c: int, m: nat)
    ensures Count(Turns(c, 1, m), 0) == m
  {
    if m > 0 {
      OneStoreTakesAll(c, m - 1);
      assert Turns(c, 1, m)[..m - 1] == Turns(c, 1, m - 1);
    }
  }

  /** From a negative cursor the first two turns both go to the first store. */
  lemma NegativeCursorSticks(c: int, n: nat)
    requires c < 0 && n > 1
    ensures Count(Turns(c, n, 2), 0) == 2 && (2 + n - 1) / n == 1
  {
    assert Turns(c, n, 1) == [Turn(c, n)];
    assert Turns(c, n, 2) == [Turn(c, n), Turn(c + 1, n)] == [0, 0];
    assert [0, 0][..1] == [0] && [0][..0] == [] && Count([0], 0) == 1;
    DivUnique(n + 1, n, 1, 1);
  }

  /** The stores of m successive resolutions, each with its own size and
      reservations. */
  datatype Request = Request(reserved: Reservations, size: nat)

  function Picks(net: Net, policy: Option<Policy>, reqs: seq<Request>): (seq<Option<Store>>, Option<Policy>) {
    if reqs == [] then ([], policy)
    else
      var (picked, p) := Picks(net, policy, reqs[..|reqs| - 1]);
      var (s, p2) := Resolve(net, p, reqs[|reqs| - 1].reserved, reqs[|reqs| - 1].size);
      (picked + [s], p2)
  }

  function StoresOf(cs: seq<Candidate>): (ss: seq<Store>)
    ensures |ss| == |cs| && forall i :: 0 <= i < |cs| ==> ss[i] == cs[i].store
  {
    if cs == [] then [] else StoresOf(cs[..|cs| - 1]) + [cs[|cs| - 1].store]
  }

  /** `picked` are the stores whose turns follow the policy's cursor, and p the row then. */
  ghost predicate FollowsTurns(policy: Policy, el: seq<Store>, picked: seq<Option<Store>>, p: Option<Policy>)
    requires el != []
  {
    && p == Some(policy.(cursor := policy.cursor + |picked|))
    && forall k :: 0 <= k < |picked| ==> picked[k] == Some(el[Turn(policy.cursor + k, |el|)])
  }

  ghost predicate EligibleIs(net: Net, r: Request, el: seq<Store>) {
    StoresOf(Eligible(Candidates(net.stores, r.reserved), r.size)) == el
  }

  lemma RoundRobinStep(net: Net, policy: Policy, picked: seq<Option<Store>>, p: Option<Policy>, r: Request,
                       el: seq<Store>)
    requires !net.replicate && net.stores != [] && policy.mode == "round_robin" && el != []
    requires FollowsTurns(policy, el, picked, p) && EligibleIs(net, r, el)
    ensures var (s, p2) := Resolve(net, p, r.reserved, r.size); FollowsTurns(policy, el, picked + [s], p2)
  {
    var cs := Candidates(net.stores, r.reserved);
    assert |Eligible(cs, r.size)| == |el|;
    assert Resolve(net, p, r.reserved, r.size).0 == Some(el[Turn(policy.cursor + |picked|, |el|)]);
  }

  /** With the list of eligible stores unchanged, successive round-robin
      resolutions follow the turns. */
  lemma {:induction false} PicksFollowTurns(net: Net, policy: Policy, reqs: seq<Request>, el: seq<Store>)
    requires !net.replicate && net.stores != [] && policy.mode == "round_robin" && el != []
    requires forall k :: 0 <= k < |reqs| ==> EligibleIs(net, reqs[k], el)
    ensures |Picks(net, Some(policy), reqs).0| == |reqs|
    ensures FollowsTurns(policy, el, Picks(net, Some(policy), reqs).0, Picks(net, Some(policy), reqs).1)
    decreases |reqs|
  {
    if reqs != [] {
      var init, r := reqs[..|reqs| - 1], reqs[|reqs| - 1];
      PicksFollowTurns(net, policy, init, el);
      var (picked, p) := Picks(net, Some(policy), init);
      RoundRobinStep(net, policy, picked, p, r, el);
    }
  }

  lemma {:induction false} TurnsAt(c: int, n: nat, m: nat)
    requires n > 0
    ensures forall k :: 0 <= k < m ==> Turns(c, n, m)[k] == Turn(c + k, n)
  {
    if m > 0 { TurnsAt(c, n, m - 1); }
  }

  lemma {:induction false} CountMapped(picked: seq<Option<Store>>, ts: seq<nat>, el: seq<Store>, i: nat)
    requires |picked| == |ts| && i < |el| && forall k :: 0 <= k < |ts| ==> ts[k] < |el| && picked[k] == Some(el[ts[k]])
    requires forall a, b :: 0 <= a < b < |el| ==> el[a] != el[b]
    ensures Count(picked, Some(el[i])) == Count(ts, i)
  {
    if picked != [] { CountMapped(picked[..|picked| - 1], ts[..|ts| - 1], el, i); }
  }

  lemma FollowingCounts(policy: Policy, el: seq<Store>, picked: seq<Option<Store>>, p: Option<Policy>, i: nat)
    requires i < |el| && FollowsTurns(policy, el, picked, p) && forall a, b :: 0 <= a < b < |el| ==> el[a] != el[b]
    ensures Count(picked, Some(el[i])) == Count(Turns(policy.cursor, |el|, |picked|), i)
  {
    TurnsAt(policy.cursor, |el|, |picked|);
    CountMapped(picked, Turns(policy.cursor, |el|, |picked|), el, i);
  }

  lemma TurnsAreFair(policy: Policy, el: seq<Store>, picked: seq<Option<Store>>, p: Option<Policy>, i: nat)
    requires policy.cursor >= 0 && i < |el| && FollowsTurns(policy, el, picked, p)
    requires forall a, b :: 0 <= a < b < |el| ==> el[a] != el[b]
    ensures Balanced(Count(picked, Some(el[i])), |picked|, |el|)
  {
    FollowingCounts(policy, el, picked, p, i);
    CountIsHits(policy.cursor, |el|, |picked|, i);
    HitsBalanced(policy.cursor, |el|, |picked|, i);
  }

  /** Round robin is fair: with the list of eligible stores unchanged, m
      successive resolutions choose each of the n stores floor(m/n) or
      ceil(m/n) times, wherever a non-negative cursor starts. */
  lemma {:induction false} RoundRobinIsFair(net: Net, policy: Policy, reqs: seq<Request>, el: seq<Store>, i: nat)
    requires !net.replicate && net.stores != [] && policy.mode == "round_robin" && policy.cursor >= 0 && i < |el|
    requires forall a, b :: 0 <= a < b < |el| ==> el[a] != el[b]
    requires forall k :: 0 <= k < |reqs| ==> EligibleIs(net, reqs[k], el)
    ensures Balanced(Count(Picks(net, Some(policy), reqs).0, Some(el[i])), |reqs|, |el|)
  {
    PicksFollowTurns(net, policy, reqs, el);
    TurnsAreFair(policy, el, Picks(net, Some(policy), reqs).0, Picks(net, Some(policy), reqs).1, i);
  }

  // ----------------------------------------------------------------- the batch

  datatype End = Done | Busy | Failed

  /** What one attempt meets; `busy` says its error is SQLITE_BUSY. */
  datatype Attempt =
    | NoSetup(busy: bool)                  // no transaction: nothing is reserved
    | SetupLost(busy: bool)                // reserved, then phase 1 rolls back
    | NotStored(written: nat, busy: bool)  // phase 1 commits, the upload fails part-way
    | Stored(end: End)                     // the bytes are stored; phase 3 ends so

  datatype Upload = Upload(size: nat, tries: nat -> Attempt)

  /** One reservation, and how many bytes it let reach the store. */
  datatype Placement = Placement(store: Store, size: nat, written: nat)

  datatype State = State(policy: Option<Policy>, reserved: Reservations, log: seq<Placement>)

  function EndOf(busy: bool): End { if busy then Busy else Failed }

  function Place(st: State, s: Store, size: nat, written: nat, policy: Option<Policy>): State {
    State(policy, st.reserved[s.id := Reserved(st.reserved, s.id) + size],
          st.log + [Placement(s, size, if written < size then written else size)])
  }

  /** uploadOneAttempt. */
  function TryOnce(net: Net, st: State, size: nat, a: Attempt): (State, End) {
    if a.NoSetup? then (st, EndOf(a.busy))
    else
      var (s, policy) := Resolve(net, st.policy, st.reserved, size);
      if s.None? then (st, Failed)
      else match a
        case SetupLost(busy) => (Place(st, s.value, size, 0, st.policy), EndOf(busy))
        case NotStored(written, busy) => (Place(st, s.value, size, written, policy), EndOf(busy))
        case Stored(end) => (Place(st, s.value, size, size, policy), end)
        case NoSetup(busy) => (st, EndOf(busy))
  }

  /** What one attempt does. Before a transaction, nothing. Otherwise a store is
      chosen and the size reserved on it, whatever happens later; only the
      policy row goes back when phase 1 rolls back. */
  ghost predicate Attempted(net: Net, st: State, size: nat, a: Attempt, st1: State, end: End) {
    if a.NoSetup? then st1 == st && end == (if a.busy then Busy else Failed)
    else
      exists s, next ::
        Chosen(net, st.policy, st.reserved, size, s, next) && Reserves(st, size, a, s, next, st1, end)
  }

  ghost predicate Reserves(st: State, size: nat, a: Attempt, s: Option<Store>, next: Option<Policy>, st1: State,
                           end: End)
    requires !a.NoSetup?
  {
    if s.None? then st1 == st && end == Failed
    else
      var before := if s.value.id in st.reserved then st.reserved[s.value.id] else 0;
      && st1.reserved == st.reserved[s.value.id := before + size]
      && st1.policy == (if a.SetupLost? then st.policy else next)
      && |st1.log| == |st.log| + 1 && st1.log[..|st.log|] == st.log
      && st1.log[|st.log|].store == s.value && st1.log[|st.log|].size == size
      && st1.log[|st.log|].written == (match a
                                       case Stored(_) => size
                                       case NotStored(written, _) => if written < size then written else size
                                       case SetupLost(_) => 0)
      && end == if a.Stored? then a.end else if a.busy then Busy else Failed
  }

  lemma TryIsAttempted(net: Net, st: State, size: nat, a: Attempt)
    ensures var (st1, end) := TryOnce(net, st, size, a); Attempted(net, st, size, a, st1, end)
  {
    if !a.NoSetup? {
      var (s, next) := Resolve(net, st.policy, st.reserved, size);
      var (st1, end) := TryOnce(net, st, size, a);
      ChoiceIsChosen(net, st.policy, st.reserved, size);
      TryReserves(net, st, size, a, s, next, st1, end);
    }
  }

  lemma TryReserves(net: Net, st: State, size: nat, a: Attempt, s: Option<Store>, next: Option<Policy>, st1: State,
                    end: End)
    requires !a.NoSetup? && (s, next) == Resolve(net, st.policy, st.reserved, size)
    requires (st1, end) == TryOnce(net, st, size, a)
    ensures Reserves(st, size, a, s, next, st1, end)
  {
  }

  function Retry(net: Net, st: State, up: Upload, k: nat): (State, bool)
    requires k <= MAX_TRIES
    decreases MAX_TRIES - k
  {
    if k == MAX_TRIES then (st, false)
    else
      var (st1, end) := TryOnce(net, st, up.size, up.tries(k));
      if end == Busy then Retry(net, st1, up, k + 1) else (st1, end == Done)
  }

  /** How an attempt ends: by its own error, or for want of any store to choose. */
  ghost function EndOfTry(net: Net, a: Attempt): End {
    if a.NoSetup? then (if a.busy then Busy else Failed)
    else if if net.replicate then net.primary.None? else net.stores == [] then Failed
    else if a.Stored? then a.end
    else if a.busy then Busy
    else Failed
  }

  /** Exactly the first n attempts are made: every one before the last was
      busy, and the last was not, or was the third. */
  ghost predicate StopsAfter(net: Net, up: Upload, n: nat) {
    && 1 <= n <= 3 && (forall j: nat :: j < n - 1 ==> EndOfTry(net, up.tries(j)) == Busy)
    && (n < 3 ==> EndOfTry(net, up.tries(n - 1)) != Busy)
  }

  lemma TryEnds(net: Net, st: State, size: nat, a: Attempt)
    ensures TryOnce(net, st, size, a).1 == EndOfTry(net, a)
  {
  }

  lemma {:induction false} RetryStops(net: Net, st: State, up: Upload, k: nat) returns (n: nat)
    requires k < MAX_TRIES && forall j: nat :: j < k ==> EndOfTry(net, up.tries(j)) == Busy
    ensures StopsAfter(net, up, n) && (Retry(net, st, up, k).1 <==> EndOfTry(net, up.tries(n - 1)) == Done)
    decreases MAX_TRIES - k
  {
    TryEnds(net, st, up.size, up.tries(k));
    var (st1, end) := TryOnce(net, st, up.size, up.tries(k));
    if end == Busy && k + 1 < MAX_TRIES {
      n := RetryStops(net, st1, up, k + 1);
    } else {
      n := k + 1;
      assert end == Busy ==> Retry(net, st1, up, k + 1) == (st1, false);
    }
  }

  /** The file is not over 100 MiB, and its last attempt succeeds. */
  ghost predicate GetsUploaded(net: Net, up: Upload) {
    up.size <= 104_857_600 && exists n: nat :: StopsAfter(net, up, n) && EndOfTry(net, up.tries(n - 1)) == Done
  }

  lemma StopsOnce(net: Net, up: Upload, m: nat, n: nat)
    requires StopsAfter(net, up, m) && StopsAfter(net, up, n)
    ensures m == n
  {
  }

  lemma RetrySucceedsIff(net: Net, st: State, up: Upload)
    requires up.size <= MAX_FILE_SIZE
    ensures Retry(net, st, up, 0).1 <==> GetsUploaded(net, up)
  {
    var n := RetryStops(net, st, up, 0);
    forall m: nat | StopsAfter(net, up, m) ensures m == n { StopsOnce(net, up, m, n); }
  }

  /** A batch answers file by file, whatever the router chose. */
  lemma {:induction false} BatchAnswers(net: Net, st: State, ups: seq<Upload>)
    ensures var oks := UploadAll(net, st, ups).1;
            |oks| == |ups| && forall i :: 0 <= i < |ups| ==> (oks[i] <==> GetsUploaded(net, ups[i]))
    decreases |ups|
  {
    if ups != [] {
      var init, up := ups[..|ups| - 1], ups[|ups| - 1];
      BatchAnswers(net, st, init);
      if up.size <= MAX_FILE_SIZE { RetrySucceedsIff(net, UploadAll(net, st, init).0, up); }
    }
  }

  function UploadAll(net: Net, st: State, ups: seq<Upload>): (State, seq<bool>) {
    if ups == [] then (st, [])
    else
      var (st1, oks) := UploadAll(net, st, ups[..|ups| - 1]);
      var up := ups[|ups| - 1];
      if up.size > MAX_FILE_SIZE then (st1, oks + [false])
      else
        var (st2, ok) := Retry(net, st1, up, 0);
        (st2, oks + [ok])
  }

  // -------------------------------------------------------------- the code's loops

  method MostAvailable(cands: seq<Candidate>) returns (best: Candidate)
    requires cands != []
    ensures best == cands[FirstMax(cands)]
  {
    best := cands[0];
    assert cands[..1] == [cands[0]];
    for i := 1 to |cands|
      invariant best == cands[..i][FirstMax(cands[..i])]
    {
      assert cands[..i + 1][..i] == cands[..i];
      if cands[i].avail > best.avail { best := cands[i]; }
    }
    assert cands[..|cands|] == cands;
  }

  /** The loop over the stores in ResolveUploadStoreReserved. */
  method Measure(stores: seq<Store>, reserved: Reservations) returns (cands: seq<Candidate>)
    ensures cands == Candidates(stores, reserved)
    ensures |cands| == |stores|
    ensures forall i :: 0 <= i < |cands| ==> cands[i].store == stores[i] && cands[i].avail == Left(stores[i], reserved)
  {
    cands := [];
    for i := 0 to |stores|
      invariant cands == Candidates(stores[..i], reserved)
    {
      var s := stores[i];
      var limit := s.quotaLimit;
      if s.gdrive { limit := s.providerLimit; }
      var avail := MAX_INT64 - s.used;
      if limit > 0 { avail := limit - s.used; }
      if s.id in reserved && reserved[s.id] > 0 { avail := avail - reserved[s.id]; }
      cands := cands + [Candidate(s, avail)];
      assert stores[..i + 1][..i] == stores[..i];
    }
    assert stores[..|stores|] == stores;
    CandidatesHaveLeft(stores, reserved, cands);
  }

  /** A request's batch: the `reserved` map is updated in place, file by file. */
  class Uploader {
    const net: Net
    var policy: Option<Policy>
    var reserved: Reservations
    ghost var log: seq<Placement>

    constructor (net: Net, policy: Option<Policy>)
      ensures this.net == net && Value() == State(policy, map[], [])
    {
      this.net, this.policy, reserved, log := net, policy, map[], [];
    }

    ghost function Value(): State reads this { State(policy, reserved, log) }

    method ResolveUploadStoreReserved(size: nat) returns (r: Option<Store>, next: Option<Policy>)
      ensures (r, next) == Resolve(net, policy, reserved, size)
    {
      if net.replicate { return net.primary, policy; }
      var stores := net.stores;
      if |stores| == 0 { return None, policy; }
      var cands := Measure(stores, reserved);
      var s;
      s, next := Switch(policy, cands, size);
      r := Some(s);
    }

    /** One attempt; `reserved` keeps its entry whatever happens later. */
    method UploadOneAttempt(size: nat, a: Attempt) returns (end: End)
      modifies this
      ensures (Value(), end) == TryOnce(net, old(Value()), size, a)
    {
      if a.NoSetup? { return EndOf(a.busy); }
      var s, next := ResolveUploadStoreReserved(size);
      if s.None? { return Failed; }
      reserved := reserved[s.value.id := Reserved(reserved, s.value.id) + size];
      ghost var written := match a case NotStored(w, _) => w case Stored(_) => size case _ => 0;
      log := log + [Placement(s.value, size, if written < size then written else size)];
      if a.SetupLost? { return EndOf(a.busy); }
      policy := next;
      if a.NotStored? { return EndOf(a.busy); }
      return a.end;
    }

    method UploadOne(up: Upload) returns (ok: bool)
      modifies this
      ensures up.size > 104_857_600 ==> Value() == old(Value()) && !ok
      ensures up.size <= MAX_FILE_SIZE ==> (Value(), ok) == Retry(net, old(Value()), up, 0)
    {
      if up.size > MAX_FILE_SIZE { return false; }
      for attempt := 0 to MAX_TRIES
        invariant Retry(net, old(Value()), up, 0) == Retry(net, Value(), up, attempt)
      {
        var end := UploadOneAttempt(up.size, up.tries(attempt));
        if end == Busy { continue; }
        return end == Done;
      }
      return false;
    }

    method UploadFile(ups: seq<Upload>) returns (uploaded: seq<bool>)
      modifies this
      ensures |uploaded| == |ups| && forall i :: 0 <= i < |ups| ==> (uploaded[i] <==> GetsUploaded(net, ups[i]))
      ensures (Value(), uploaded) == UploadAll(net, old(Value()), ups)
    {
      BatchAnswers(net, Value(), ups);
      uploaded := [];
      for i := 0 to |ups|
        invariant (Value(), uploaded) == UploadAll(net, old(Value()), ups[..i])
      {
        var ok := UploadOne(ups[i]);
        uploaded := uploaded + [ok];
        assert ups[..i + 1][..i] == ups[..i];
      }
      assert ups[..|ups|] == ups;
    }
  }

  /** The end of ResolveUploadStoreReserved: the eligible candidates, and the
      policy's choice. */
  method Switch(policy: Option<Policy>, cands: seq<Candidate>, size: nat) returns (s: Store, next: Option<Policy>)
    requires cands != []
    ensures (s, next) == ByPolicy(policy, cands, Eligible(cands, size))
  {
    var policyMode, priorityIds, cursor := "most_available", [], 0;
    if policy.Some? {
      if policy.value.mode != "" { policyMode := policy.value.mode; }
      priorityIds, cursor := policy.value.priority, policy.value.cursor;
    }
    var eligible := [];
    for i := 0 to |cands|
      invariant eligible == Eligible(cands[..i], size)
    {
      assert cands[..i + 1][..i] == cands[..i];
      if cands[i].avail >= size { eligible := eligible + [cands[i]]; }
    }
    assert cands[..|cands|] == cands;
    if policyMode == "round_robin" && |eligible| > 0 {
      var idx := TruncMod(cursor, |eligible|);
      if idx < 0 { idx := 0; }
      return eligible[idx].store, Some(policy.value.(cursor := cursor + 1));
    }
    if policyMode == "priority" && |eligible| > 0 {
      var listed := FirstOfPriority(priorityIds, eligible);
      if listed.Some? { return listed.value, policy; }
      var best := MostAvailable(eligible);
      return best.store, policy;
    }
    var best := MostAvailable(cands);
    return best.store, policy;
  }

  method FirstOfPriority(priorityIds: seq<StoreId>, eligible: seq<Candidate>) returns (r: Option<Store>)
    ensures r == FirstListed(priorityIds, eligible)
  {
    for i := 0 to |priorityIds|
      invariant FirstListed(priorityIds, eligible) == FirstListed(priorityIds[i..], eligible)
    {
      for j := 0 to |eligible|
        invariant WithId(eligible, priorityIds[i]) == WithId(eligible[j..], priorityIds[i])
      {
        if eligible[j].store.id == priorityIds[i] { return Some(eligible[j].store); }
      }
    }
    return None;
  }

  // ------------------------------------------------ reservations and their limits

  /** The bytes reserved on a store by these placements. */
  function ReservedBy(log: seq<Placement>, id: StoreId): nat {
    if log == [] then 0
    else ReservedBy(log[..|log| - 1], id) + if log[|log| - 1].store.id == id then log[|log| - 1].size else 0
  }

  function WrittenBy(log: seq<Placement>, id: StoreId): nat {
    if log == [] then 0
    else WrittenBy(log[..|log| - 1], id) + if log[|log| - 1].store.id == id then log[|log| - 1].written else 0
  }

  /** What the router believed to be left on s after these placements. */
  function Room(s: Store, log: seq<Placement>): int {
    (if Limit(s) > 0 then Limit(s) else MAX_INT64) - s.used - ReservedBy(log, s.id)
  }

  ghost predicate SomeRoom(stores: seq<Store>, log: seq<Placement>, size: nat) {
    exists s :: s in stores && Room(s, log) >= size
  }

  /** Placement k went to a store without room for it. */
  ghost predicate Overflows(log: seq<Placement>, k: nat)
    requires k < |log|
  {
    Room(log[k].store, log[..k]) < log[k].size
  }

  /** Placement k could have fitted on no active write store. */
  ghost predicate Hopeless(net: Net, log: seq<Placement>, k: nat)
    requires k < |log|
  {
    !SomeRoom(net.stores, log[..k], log[k].size)
  }

  ghost predicate Accounted(st: State) {
    && (forall id :: Reserved(st.reserved, id) == ReservedBy(st.log, id))
    && (forall k :: 0 <= k < |st.log| ==> st.log[k].written <= st.log[k].size <= MAX_FILE_SIZE)
  }

  /** In cumulative mode a placement overflows exactly when it was hopeless. */
  ghost predicate WellPlaced(net: Net, log: seq<Placement>) {
    forall k: nat :: k < |log| ==> (Overflows(log, k) <==> Hopeless(net, log, k))
  }

  lemma PlaceAccounts(st: State, s: Store, size: nat, written: nat, policy: Option<Policy>)
    requires Accounted(st) && size <= MAX_FILE_SIZE
    ensures Accounted(Place(st, s, size, written, policy))
  {
    var p := Place(st, s, size, written, policy);
    assert p.log[..|p.log| - 1] == st.log;
  }

  lemma WellPlacedAppend(net: Net, log: seq<Placement>, p: Placement)
    requires WellPlaced(net, log) && (Room(p.store, log) < p.size <==> !SomeRoom(net.stores, log, p.size))
    ensures WellPlaced(net, log + [p])
  {
    forall k: nat | k < |log + [p]| ensures Overflows(log + [p], k) <==> Hopeless(net, log + [p], k) {
      if k < |log| {
        assert (log + [p])[..k] == log[..k];
        assert Overflows(log, k) <==> Hopeless(net, log, k);
      } else {
        assert (log + [p])[..k] == log;
      }
    }
  }

  lemma TryKeeps(net: Net, st: State, size: nat, a: Attempt)
    requires Accounted(st) && size <= MAX_FILE_SIZE
    ensures var st1 := TryOnce(net, st, size, a).0;
            && Accounted(st1) && |st1.log| <= |st.log| + 1
            && (!net.replicate && WellPlaced(net, st.log) ==> WellPlaced(net, st1.log))
  {
    var (s, policy) := Resolve(net, st.policy, st.reserved, size);
    if !a.NoSetup? && s.Some? {
      PlaceAccounts(st, s.value, size, 0, st.policy);
      PlaceAccounts(st, s.value, size, if a.NotStored? then a.written else size, policy);
      if !net.replicate && WellPlaced(net, st.log) {
        ChoiceFitsIffSomeFits(net, st.policy, st.reserved, size);
        assert forall t :: Avail(t, st.reserved) == Room(t, st.log);
        assert SomeFits(net.stores, st.reserved, size) <==> SomeRoom(net.stores, st.log, size);
        WellPlacedAppend(net, st.log, TryOnce(net, st, size, a).0.log[|st.log|]);
      }
    }
  }

  lemma {:induction false} RetryKeeps(net: Net, st: State, up: Upload, k: nat)
    requires Accounted(st) && up.size <= MAX_FILE_SIZE && k <= MAX_TRIES
    ensures var st1 := Retry(net, st, up, k).0;
            && Accounted(st1) && |st1.log| <= |st.log| + (MAX_TRIES - k)
            && (!net.replicate && WellPlaced(net, st.log) ==> WellPlaced(net, st1.log))
    decreases MAX_TRIES - k
  {
    if k < MAX_TRIES {
      TryKeeps(net, st, up.size, up.tries(k));
      RetryKeeps(net, TryOnce(net, st, up.size, up.tries(k)).0, up, k + 1);
    }
  }

  /** Over a whole batch, with retries that reserve again: the `reserved` map is
      exactly what the placements asked for, no file is placed more than three
      times, none over the size limit is placed at all, and in cumulative mode,
      under every policy, a file lands on a store without room for it exactly
      when no active write store had room. */
  lemma {:induction false} BatchKeeps(net: Net, policy: Option<Policy>, ups: seq<Upload>)
    ensures var st := UploadAll(net, State(policy, map[], []), ups).0;
            && Accounted(st) && |st.log| <= MAX_TRIES * |ups|
            && (!net.replicate ==> WellPlaced(net, st.log))
    decreases |ups|
  {
    if ups != [] {
      BatchKeeps(net, policy, ups[..|ups| - 1]);
      var up := ups[|ups| - 1];
      if up.size <= MAX_FILE_SIZE {
        RetryKeeps(net, UploadAll(net, State(policy, map[], []), ups[..|ups| - 1]).0, up, 0);
      }
    }
  }

  /** Reservations never undercount the bytes that reached a store. */
  lemma {:induction false} ReservationsCover(log: seq<Placement>, id: StoreId)
    requires forall k :: 0 <= k < |log| ==> log[k].written <= log[k].size
    ensures WrittenBy(log, id) <= ReservedBy(log, id)
  {
    if log != [] { ReservationsCover(log[..|log| - 1], id); }
  }

  lemma {:induction false} ReservedGrows(log: seq<Placement>, n: nat, id: StoreId)
    requires n <= |log|
    ensures ReservedBy(log[..n], id) <= ReservedBy(log, id)
    decreases |log|
  {
    if n < |log| {
      ReservedGrows(log[..|log| - 1], n, id);
      assert log[..|log| - 1][..n] == log[..n];
    } else {
      assert log[..n] == log;
    }
  }

  ghost predicate PlacedOn(log: seq<Placement>, s: Store) { exists k :: 0 <= k < |log| && log[k].store == s }

  ghost predicate OverflowedAt(log: seq<Placement>, s: Store) {
    exists k: nat :: k < |log| && log[k].store == s && Overflows(log, k)
  }

  /** A store that took files stays within its room unless one of them
      overflowed it, and not otherwise: room lost is never regained. */
  lemma {:induction false} OverIffOverflowed(log: seq<Placement>, s: Store)
    requires PlacedOn(log, s) && forall k :: 0 <= k < |log| && log[k].store.id == s.id ==> log[k].store == s
    ensures Room(s, log) < 0 <==> OverflowedAt(log, s)
    decreases |log|
  {
    var init, p := log[..|log| - 1], log[|log| - 1];
    if OverflowedAt(log, s) {
      var k: nat :| k < |log| && log[k].store == s && Overflows(log, k);
      assert log[..k + 1][..k] == log[..k];
      ReservedGrows(log, k + 1, s.id);
    }
    if Room(s, log) < 0 && p.store == s {
      assert Room(s, log) == Room(s, init) - p.size && log[..|log| - 1] == init;
      assert Overflows(log, |log| - 1);
    } else if Room(s, log) < 0 {
      var k :| 0 <= k < |log| && log[k].store == s;
      assert init[k] == log[k];
      OverIffOverflowed(init, s);
      var j: nat :| j < |init| && init[j].store == s && Overflows(init, j);
      assert init[..j] == log[..j] && Overflows(log, j);
    }
  }

  /** s took a file that its mode could not have kept off it: in replicate mode
      one the primary had no room for, else one no active write store had room for. */
  ghost predicate Overfilled(net: Net, log: seq<Placement>, s: Store) {
    exists k: nat ::
      k < |log| && log[k].store == s && if net.replicate then Overflows(log, k) else Hopeless(net, log, k)
  }

  ghost predicate IdsUnique(net: Net) {
    forall a, b :: a in Known(net) && b in Known(net) && a.id == b.id ==> a == b
  }

  function Known(net: Net): seq<Store> { net.stores + if net.primary.Some? then [net.primary.value] else [] }

  /** The allocator's promise. After a batch, any store with a limit that took
      files holds used + reserved within that limit unless, and only if not, it
      was overfilled; and used plus the bytes that really reached it is no more
      than that. */
  lemma BatchKeepsLimits(net: Net, policy: Option<Policy>, ups: seq<Upload>, s: Store)
    requires s in Known(net) && Limit(s) > 0 && IdsUnique(net)
    ensures var st := UploadAll(net, State(policy, map[], []), ups).0;
            && s.used + WrittenBy(st.log, s.id) <= s.used + Reserved(st.reserved, s.id)
            && (PlacedOn(st.log, s) ==>
                (s.used + Reserved(st.reserved, s.id) <= Limit(s) <==> !Overfilled(net, st.log, s)))
  {
    var st := UploadAll(net, State(policy, map[], []), ups).0;
    BatchKeeps(net, policy, ups);
    BatchStaysOnNet(net, policy, ups);
    ReservationsCover(st.log, s.id);
    if PlacedOn(st.log, s) {
      OverIffOverflowed(st.log, s);
      OverfilledIff(net, st.log, s);
    }
  }

  lemma OverfilledIff(net: Net, log: seq<Placement>, s: Store)
    requires net.replicate || WellPlaced(net, log)
    ensures Overfilled(net, log, s) <==> OverflowedAt(log, s)
  {
    assert !net.replicate ==> forall k: nat :: k < |log| ==> (Overflows(log, k) <==> Hopeless(net, log, k));
  }

  /** The stores of all placements are ones the mode chooses from. */
  ghost predicate OnNet(net: Net, log: seq<Placement>) {
    forall k :: 0 <= k < |log| ==>
        if net.replicate then net.primary == Some(log[k].store) else log[k].store in net.stores
  }

  lemma TryStaysOnNet(net: Net, st: State, size: nat, a: Attempt)
    requires OnNet(net, st.log)
    ensures OnNet(net, TryOnce(net, st, size, a).0.log)
  {
    if !net.replicate { ChoiceFitsIffSomeFits(net, st.policy, st.reserved, size); }
  }

  lemma {:induction false} RetryStaysOnNet(net: Net, st: State, up: Upload, k: nat)
    requires OnNet(net, st.log) && k <= MAX_TRIES
    ensures OnNet(net, Retry(net, st, up, k).0.log)
    decreases MAX_TRIES - k
  {
    if k < MAX_TRIES {
      TryStaysOnNet(net, st, up.size, up.tries(k));
      RetryStaysOnNet(net, TryOnce(net, st, up.size, up.tries(k)).0, up, k + 1);
    }
  }

  lemma {:induction false} BatchStaysOnNet(net: Net, policy: Option<Policy>, ups: seq<Upload>)
    ensures OnNet(net, UploadAll(net, State(policy, map[], []), ups).0.log)
    decreases |ups|
  {
    if ups != [] {
      BatchStaysOnNet(net, policy, ups[..|ups| - 1]);
      RetryStaysOnNet(net, UploadAll(net, State(policy, map[], []), ups[..|ups| - 1]).0, ups[|ups| - 1], 0);
    }
  }

  // ---------------------------------------------------------------- replicate mode

  /** Placement k went to a store without room while some store had room. */
  ghost predicate Misplaced(net: Net, log: seq<Placement>, k: nat)
    requires k < |log|
  {
    Overflows(log, k) && !Hopeless(net, log, k)
  }

  lemma {:induction false} ReservedElsewhere(log: seq<Placement>, id: StoreId)
    requires forall k :: 0 <= k < |log| ==> log[k].store.id != id
    ensures ReservedBy(log, id) == 0
  {
    if log != [] { ReservedElsewhere(log[..|log| - 1], id); }
  }

  /** Every placement of a replicate-mode batch is on the primary, whatever room
      there is; a file is misplaced exactly when the primary is full for it and
      another store, whose room the batch never touches, is not. */
  lemma ReplicateBatch(net: Net, policy: Option<Policy>, ups: seq<Upload>, k: nat)
    requires net.replicate && IdsUnique(net)
    requires k < |UploadAll(net, State(policy, map[], []), ups).0.log|
    ensures var log := UploadAll(net, State(policy, map[], []), ups).0.log;
            && net.primary == Some(log[k].store)
            && (Misplaced(net, log, k) <==>
                  && net.primary.value.used + ReservedBy(log[..k], net.primary.value.id) + log[k].size
                     > Cap(net.primary.value)
                  && exists s :: s in net.stores && s != net.primary.value && s.used + log[k].size <= Cap(s))
  {
    var log := UploadAll(net, State(policy, map[], []), ups).0.log;
    BatchStaysOnNet(net, policy, ups);
    var p := net.primary.value;
    forall s | s in net.stores && s != p ensures Room(s, log[..k]) == Cap(s) - s.used {
      assert s in Known(net) && p in Known(net);
      ReservedElsewhere(log[..k], s.id);
    }
  }

  function Cap(s: Store): nat { if Limit(s) > 0 then Limit(s) else MAX_INT64 }

  /** An upload whose first attempt succeeds. */
  function GoesWell(size: nat): Upload { Upload(size, k => Stored(Done)) }

  /** n files of the largest size. */
  function Flood(n: nat): seq<Upload> { if n == 0 then [] else Flood(n - 1) + [GoesWell(MAX_FILE_SIZE)] }

  lemma GoesWellPlaces(net: Net, st: State, size: nat)
    requires net.replicate && net.primary.Some?
    ensures Retry(net, st, GoesWell(size), 0).0 == Place(st, net.primary.value, size, size, st.policy)
  {
    assert GoesWell(size).tries(0) == Stored(Done);
  }

  lemma OneMore(net: Net, st: State, ups: seq<Upload>, size: nat)
    requires net.replicate && net.primary.Some? && size <= MAX_FILE_SIZE
    ensures UploadAll(net, st, ups + [GoesWell(size)]).0.log
            == UploadAll(net, st, ups).0.log + [Placement(net.primary.value, size, size)]
  {
    assert (ups + [GoesWell(size)])[..|ups|] == ups;
    GoesWellPlaces(net, UploadAll(net, st, ups).0, size);
  }

  /** n placements on p that reserve MAX_FILE_SIZE each. */
  ghost predicate Filled(log: seq<Placement>, p: Store, n: nat) {
    && |log| == n && (forall k :: 0 <= k < n ==> log[k].store == p)
    && ReservedBy(log, p.id) == n * MAX_FILE_SIZE
  }

  lemma FilledOneMore(log: seq<Placement>, p: Store, n: nat)
    requires Filled(log, p, n)
    ensures Filled(log + [Placement(p, MAX_FILE_SIZE, MAX_FILE_SIZE)], p, n + 1)
  {
    assert (log + [Placement(p, MAX_FILE_SIZE, MAX_FILE_SIZE)])[..n] == log;
  }

  lemma {:induction false} FloodFills(net: Net, st: State, n: nat)
    requires net.replicate && net.primary.Some? && st.log == []
    ensures Filled(UploadAll(net, st, Flood(n)).0.log, net.primary.value, n)
  {
    if n > 0 {
      FloodFills(net, st, n - 1);
      OneMore(net, st, Flood(n - 1), MAX_FILE_SIZE);
      FilledOneMore(UploadAll(net, st, Flood(n - 1)).0.log, net.primary.value, n - 1);
    }
  }

  /** A full primary takes even an empty file. */
  lemma FullTakesEmpty(net: Net, log: seq<Placement>, p: Store, s: Store)
    requires net.primary == Some(p) && IdsUnique(net) && Filled(log, p, Cap(p) + 1)
    requires s in net.stores && s != p && s.used <= Cap(s)
    ensures Misplaced(net, log + [Placement(p, 0, 0)], Cap(p) + 1)
  {
    assert (log + [Placement(p, 0, 0)])[..Cap(p) + 1] == log;
    assert s in Known(net) && p in Known(net);
    ReservedElsewhere(log, s.id);
    assert Room(s, log) >= 0;
  }

  /** Files enough to fill the primary, and then an empty one. */
  lemma FloodMisplaces(net: Net, policy: Option<Policy>, s: Store) returns (ups: seq<Upload>, k: nat)
    requires net.replicate && IdsUnique(net) && net.primary.Some?
    requires s in net.stores && s != net.primary.value && s.used <= Cap(s)
    ensures k < |UploadAll(net, State(policy, map[], []), ups).0.log|
    ensures Misplaced(net, UploadAll(net, State(policy, map[], []), ups).0.log, k)
  {
    k := Cap(net.primary.value) + 1;
    ups := Flood(k) + [GoesWell(0)];
    FloodFills(net, State(policy, map[], []), k);
    OneMore(net, State(policy, map[], []), Flood(k), 0);
    FullTakesEmpty(net, UploadAll(net, State(policy, map[], []), Flood(k)).0.log, net.primary.value, s);
  }

  /** Replicate mode can misplace a file, under some batch, exactly when some
      write store other than the primary is not itself over its limit. */
  lemma ReplicateMisplacesIff(net: Net, policy: Option<Policy>)
    requires net.replicate && IdsUnique(net)
    ensures (exists ups, k: nat ::
               k < |UploadAll(net, State(policy, map[], []), ups).0.log| &&
               Misplaced(net, UploadAll(net, State(policy, map[], []), ups).0.log, k))
            <==> net.primary.Some? && exists s :: s in net.stores && s != net.primary.value && s.used <= Cap(s)
  {
    if ups, k: nat :| k < |UploadAll(net, State(policy, map[], []), ups).0.log| &&
                      Misplaced(net, UploadAll(net, State(policy, map[], []), ups).0.log, k) {
      ReplicateBatch(net, policy, ups, k);
    }
    if net.primary.Some? && exists s :: s in net.stores && s != net.primary.value && s.used <= Cap(s) {
      var s :| s in net.stores && s != net.primary.value && s.used <= Cap(s);
      var ups, k := FloodMisplaces(net, policy, s);
    }
  }
}
