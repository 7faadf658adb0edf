/**
 * The assignment engine: rejection sampling over shuffles of the participant
 * list until one yields a derangement without reciprocal pairs.
 */
module Engine {
  import opened Common
  import opened Shuffling

  /** Fewer names than this are refused before any attempt. */
  const MIN_PLAYERS: nat := 3
  /** At most this many candidate shuffles are tried. */
  const MAX_ATTEMPTS: nat := 500

  /** The random source of one draw: `draw(attempt)` is the round of picks of that attempt. */
  type Draws = nat -> Picks

  /** Every round the engine may use draws within range for `n` names. */
  ghost predicate DrawsInRange(draw: Draws, n: nat) {
    forall attempt: nat :: attempt < MAX_ATTEMPTS ==> PicksInRange(draw(attempt), n)
  }

  // ---------------------------------------------------------------------
  // One candidate: the two passes over a shuffled receiver list
  // ---------------------------------------------------------------------

  /**
   * The giver-to-receiver `Map` after its first `k` entries have been set:
   * giver `names[i]` is paired with `receivers[i]`, a later giver of the same
   * name overwriting an earlier one.  Every one of the first `k` givers is a key.
   */
  function MapOf(names: seq<string>, receivers: seq<string>, k: nat): (m: map<string, string>)
    requires k <= |names| == |receivers|
    ensures forall i :: 0 <= i < k ==> names[i] in m
  {
    if k == 0 then map[]
    else MapOf(names, receivers, k - 1)[names[k - 1] := receivers[k - 1]]
  }

  /** The first pass lets the candidate through: no giver is paired with itself. */
  predicate NoSelfAssignment(names: seq<string>, receivers: seq<string>)
    requires |names| == |receivers|
  {
    forall i :: 0 <= i < |names| ==> names[i] != receivers[i]
  }

  /** The receiver of `giver` is itself a giver whose receiver is `giver`. */
  predicate Reciprocal(m: map<string, string>, giver: string)
    requires giver in m
  {
    m[giver] in m && m[m[giver]] == giver
  }

  /** The second pass lets the map through: no entry is reciprocal. */
  predicate NoReciprocal(m: map<string, string>) {
    forall g :: g in m ==> !Reciprocal(m, g)
  }

  /** Both passes accept the candidate receiver list. */
  predicate Accepted(names: seq<string>, receivers: seq<string>)
    requires |names| == |receivers|
  {
    NoSelfAssignment(names, receivers) && NoReciprocal(MapOf(names, receivers, |names|))
  }

  /** The returned pairs: one per name, in input order, with the receiver the map holds for it. */
  function PairsOf(names: seq<string>, m: map<string, string>): (ps: seq<Pair>)
    requires forall i :: 0 <= i < |names| ==> names[i] in m
  {
    seq(|names|, i requires 0 <= i < |names| => Pair(names[i], m[names[i]]))
  }

  // ---------------------------------------------------------------------
  // The whole engine as a function of its random source
  // ---------------------------------------------------------------------

  /** The receiver list of attempt number `attempt`: the names shuffled under its round of draws. */
  function Candidate(names: seq<string>, draw: Draws, attempt: nat): (r: seq<string>)
    requires attempt < MAX_ATTEMPTS && DrawsInRange(draw, |names|)
    ensures |r| == |names| && multiset(r) == multiset(names)
  {
    ShuffleDownIsPermutation(names, draw(attempt), |names| - 1);
    Shuffled(names, draw(attempt))
  }

  /** The receiver lists of all attempts, in order. */
  function Candidates(names: seq<string>, draw: Draws): (cs: seq<seq<string>>)
    requires DrawsInRange(draw, |names|)
    ensures |cs| == MAX_ATTEMPTS && Shuffles(names, cs)
  {
    seq(MAX_ATTEMPTS, a requires 0 <= a < MAX_ATTEMPTS => Candidate(names, draw, a))
  }

  /** Every candidate is a rearrangement of the names. */
  ghost predicate Shuffles(names: seq<string>, cs: seq<seq<string>>) {
    forall a :: 0 <= a < |cs| ==> |cs[a]| == |names| && multiset(cs[a]) == multiset(names)
  }

  /** The attempts from `attempt` on: the first accepted candidate, or failure after the last. */
  function TryFrom(names: seq<string>, cs: seq<seq<string>>, attempt: nat): (result: Result<seq<Pair>>)
    requires attempt <= |cs| && Shuffles(names, cs)
    decreases |cs| - attempt
  {
    if attempt == |cs| then Err(NoValidAssignmentFound)
    else if Accepted(names, cs[attempt]) then Ok(PairsOf(names, MapOf(names, cs[attempt], |names|)))
    else TryFrom(names, cs, attempt + 1)
  }

  /** What `buildAssignments` returns, or throws, for `names` under the random source `draw`. */
  function Assign(names: seq<string>, draw: Draws): (result: Result<seq<Pair>>)
    requires DrawsInRange(draw, |names|)
  {
    if |names| < MIN_PLAYERS then Err(InsufficientParticipants)
    else TryFrom(names, Candidates(names, draw), 0)
  }

  // ---------------------------------------------------------------------
  // What a successful draw promises
  // ---------------------------------------------------------------------

  /** The givers of `ps`, in order. */
  function Givers(ps: seq<Pair>): seq<string> {
    seq(|ps|, i requires 0 <= i < |ps| => ps[i].giver)
  }

  /** The receivers of `ps`, in order. */
  function Receivers(ps: seq<Pair>): seq<string> {
    seq(|ps|, i requires 0 <= i < |ps| => ps[i].receiver)
  }

  /** Nobody gives to themself. */
  predicate NoSelfPair(ps: seq<Pair>) {
    forall i :: 0 <= i < |ps| ==> ps[i].giver != ps[i].receiver
  }

  /** For every entry a -> b, an entry whose giver is b does not give to a. */
  predicate NoReciprocalPair(ps: seq<Pair>) {
    forall i, j :: 0 <= i < |ps| && 0 <= j < |ps| && ps[j].giver == ps[i].receiver ==> ps[j].receiver != ps[i].giver
  }

  /**
   * An assignment set for `names`: the givers are `names` in input order, no
   * self-assignment, no reciprocal pair, and, when the names are distinct,
   * every participant receives exactly once.
   */
  predicate ValidAssignment(names: seq<string>, ps: seq<Pair>) {
    && Givers(ps) == names
    && NoSelfPair(ps)
    && NoReciprocalPair(ps)
    && (Distinct(names) ==> multiset(Receivers(ps)) == multiset(names))
  }

  /** An assignment set on its own, as the shell holds it. */
  predicate IsAssignmentSet(ps: seq<Pair>) {
    && Distinct(Givers(ps))
    && NoSelfPair(ps)
    && NoReciprocalPair(ps)
    && multiset(Receivers(ps)) == multiset(Givers(ps))
  }

  // ---------------------------------------------------------------------
  // buildAssignments
  // ---------------------------------------------------------------------

  /**
   * The self-assignment pass over one candidate: pairs each giver with the
   * receiver at its position in a new map, and stops at the first giver
   * paired with itself.  On success the map is the whole giver-to-receiver map.
   */
  method SelfAssignmentPass(names: seq<string>, receivers: seq<string>)
    returns (valid: bool, assignments: map<string, string>)
    requires |names| == |receivers|
    ensures valid <==> NoSelfAssignment(names, receivers)
    ensures valid ==> assignments == MapOf(names, receivers, |names|)
  {
    assignments := map[];
    valid := true;
    var i := 0;
    while i < |names|
      invariant 0 <= i <= |names|
      invariant valid && assignments == MapOf(names, receivers, i)
      invariant forall k :: 0 <= k < i ==> names[k] != receivers[k]
    {
      var giver, receiver := names[i], receivers[i];
      if giver == receiver {
        valid := false;
        break;
      }
      assignments := assignments[giver := receiver];
      i := i + 1;
    }
  }

  /**
   * The reciprocity pass: visits the entries of the map and stops at the
   * first giver whose receiver gives back to it.
   */
  method ReciprocityPass(assignments: map<string, string>) returns (valid: bool)
    ensures valid <==> NoReciprocal(assignments)
  {
    valid := true;
    var entries := assignments.Keys;
    while entries != {}
      invariant entries <= assignments.Keys
      invariant forall g :: g in assignments && g !in entries ==> !Reciprocal(assignments, g)
      decreases entries
    {
      var giver :| giver in entries;
      var receiver := assignments[giver];
      if receiver in assignments && assignments[receiver] == giver {
        assert Reciprocal(assignments, giver);
        valid := false;
        break;
      }
      entries := entries - {giver};
    }
  }

  /**
   * Draws an assignment for `names`: refuses fewer than `MIN_PLAYERS` names,
   * then tries up to `MAX_ATTEMPTS` shuffles, each put through the
   * self-assignment pass and the reciprocity pass, and returns the first one
   * that passes both as pairs in input order.  What the outcome promises is
   * proved about `Assign` below.
   */
  method BuildAssignments(names: seq<string>, draw: Draws) returns (result: Result<seq<Pair>>)
    requires DrawsInRange(draw, |names|)
    ensures result == Assign(names, draw)
  {
    if |names| < MIN_PLAYERS {
      return Err(InsufficientParticipants);
    }
    ghost var cs := Candidates(names, draw);
    var attempt := 0;
    while attempt < MAX_ATTEMPTS
      invariant 0 <= attempt <= MAX_ATTEMPTS
      invariant TryFrom(names, cs, attempt) == Assign(names, draw)
    {
      var receivers := Shuffle(names, draw(attempt));
      assert receivers == cs[attempt];
      var valid, assignments := SelfAssignmentPass(names, receivers);
      if valid {
        valid := ReciprocityPass(assignments);
        if valid {
          TryFromStep(names, cs, attempt);
          return Ok(PairsOf(names, assignments));
        }
      }
      TryFromStep(names, cs, attempt);
      attempt := attempt + 1;
    }
    return Err(NoValidAssignmentFound);
  }

  // ---------------------------------------------------------------------
  // Lemmas
  // ---------------------------------------------------------------------

  /** With distinct names, the map pairs each giver with its own position's receiver. */
  lemma {:induction false} MapOfDistinct(names: seq<string>, receivers: seq<string>, k: nat)
    requires k <= |names| == |receivers| && Distinct(names)
    ensures forall i :: 0 <= i < k ==> MapOf(names, receivers, k)[names[i]] == receivers[i]
  {
    if k > 0 {
      MapOfDistinct(names, receivers, k - 1);
      var m := MapOf(names, receivers, k);
      forall i | 0 <= i < k
        ensures m[names[i]] == receivers[i]
      {
        if i < k - 1 {
          assert names[i] != names[k - 1];
        }
      }
    }
  }

  /**
   * If no giver among the first `k` was paired with itself, no key of the map
   * is its own value, even when a name occurs twice.
   */
  lemma {:induction false} MapOfNoSelf(names: seq<string>, receivers: seq<string>, k: nat)
    requires k <= |names| == |receivers|
    requires forall i :: 0 <= i < k ==> names[i] != receivers[i]
    ensures forall g :: g in MapOf(names, receivers, k) ==> MapOf(names, receivers, k)[g] != g
  {
    if k > 0 {
      MapOfNoSelf(names, receivers, k - 1);
    }
  }

  /**
   * An accepted candidate that is a permutation of the names yields a valid
   * assignment set for them.
   */
  lemma AcceptedIsValid(names: seq<string>, receivers: seq<string>)
    requires |names| == |receivers| && multiset(receivers) == multiset(names)
    requires Accepted(names, receivers)
    ensures ValidAssignment(names, PairsOf(names, MapOf(names, receivers, |names|)))
  {
    var m := MapOf(names, receivers, |names|);
    var ps := PairsOf(names, m);
    assert Givers(ps) == names;
    MapOfNoSelf(names, receivers, |names|);
    assert NoSelfPair(ps);
    assert NoReciprocalPair(ps) by {
      forall i, j | 0 <= i < |ps| && 0 <= j < |ps| && ps[j].giver == ps[i].receiver
        ensures ps[j].receiver != ps[i].giver
      {
        assert !Reciprocal(m, names[i]);
      }
    }
    if Distinct(names) {
      MapOfDistinct(names, receivers, |names|);
      assert Receivers(ps) == receivers;
    }
  }

  /** One attempt: an accepted candidate is returned, a rejected one passes on to the next attempt. */
  lemma TryFromStep(names: seq<string>, cs: seq<seq<string>>, attempt: nat)
    requires attempt < |cs| && Shuffles(names, cs)
    ensures Accepted(names, cs[attempt]) ==>
      TryFrom(names, cs, attempt) == Ok(PairsOf(names, MapOf(names, cs[attempt], |names|)))
    ensures !Accepted(names, cs[attempt]) ==> TryFrom(names, cs, attempt) == TryFrom(names, cs, attempt + 1)
  {
  }

  /** Every success of the attempts from `attempt` on is a valid assignment set. */
  lemma {:induction false} TryFromValid(names: seq<string>, cs: seq<seq<string>>, attempt: nat)
    requires attempt <= |cs| && Shuffles(names, cs)
    requires TryFrom(names, cs, attempt).Ok?
    ensures ValidAssignment(names, TryFrom(names, cs, attempt).value)
    decreases |cs| - attempt
  {
    if Accepted(names, cs[attempt]) {
      AcceptedIsValid(names, cs[attempt]);
    } else {
      TryFromValid(names, cs, attempt + 1);
    }
  }

  /**
   * The attempts from `attempt` on fail exactly when none of them is
   * accepted, and then with `NoValidAssignmentFound`.
   */
  lemma {:induction false} TryFromFails(names: seq<string>, cs: seq<seq<string>>, attempt: nat)
    requires attempt <= |cs| && Shuffles(names, cs)
    ensures TryFrom(names, cs, attempt).Err? <==> forall a :: attempt <= a < |cs| ==> !Accepted(names, cs[a])
    ensures TryFrom(names, cs, attempt).Err? ==> TryFrom(names, cs, attempt).error == NoValidAssignmentFound
    decreases |cs| - attempt
  {
    if attempt < |cs| {
      if Accepted(names, cs[attempt]) {
        assert TryFrom(names, cs, attempt).Ok?;
      } else {
        TryFromFails(names, cs, attempt + 1);
        assert TryFrom(names, cs, attempt) == TryFrom(names, cs, attempt + 1);
      }
    }
  }

  /** The attempts from `attempt` on return the first accepted candidate. */
  lemma {:induction false} TryFromFirst(names: seq<string>, cs: seq<seq<string>>, attempt: nat, a: nat)
    requires attempt <= a < |cs| && Shuffles(names, cs)
    requires Accepted(names, cs[a])
    requires forall b :: attempt <= b < a ==> !Accepted(names, cs[b])
    ensures TryFrom(names, cs, attempt) == Ok(PairsOf(names, MapOf(names, cs[a], |names|)))
    decreases a - attempt
  {
    if attempt < a {
      TryFromFirst(names, cs, attempt + 1, a);
    }
  }

  /** Too few names is refused with `InsufficientParticipants`, and nothing else is. */
  lemma AssignRefusesTooFew(names: seq<string>, draw: Draws)
    requires DrawsInRange(draw, |names|)
    ensures Assign(names, draw) == Err(InsufficientParticipants) <==> |names| < MIN_PLAYERS
  {
    TryFromFails(names, Candidates(names, draw), 0);
  }

  /** A successful draw had enough names and is a valid assignment set for them. */
  lemma AssignSound(names: seq<string>, draw: Draws)
    requires DrawsInRange(draw, |names|) && Assign(names, draw).Ok?
    ensures |names| >= MIN_PLAYERS && ValidAssignment(names, Assign(names, draw).value)
  {
    TryFromValid(names, Candidates(names, draw), 0);
  }

  /**
   * On enough names the draw fails exactly when every one of the
   * `MAX_ATTEMPTS` candidates was rejected, and then with `NoValidAssignmentFound`.
   */
  lemma AssignFailsOnlyWhenAllRejected(names: seq<string>, draw: Draws)
    requires DrawsInRange(draw, |names|) && |names| >= MIN_PLAYERS
    ensures Assign(names, draw).Err? <==>
      forall a :: 0 <= a < MAX_ATTEMPTS ==> !Accepted(names, Candidates(names, draw)[a])
    ensures Assign(names, draw).Err? ==> Assign(names, draw).error == NoValidAssignmentFound
  {
    TryFromFails(names, Candidates(names, draw), 0);
  }

  /**
   * A successful draw on enough names returns the first accepted candidate
   * among the `MAX_ATTEMPTS` rounds of the random source.
   */
  lemma AssignReturnsFirstAccepted(names: seq<string>, draw: Draws, a: nat)
    requires |names| >= MIN_PLAYERS && a < MAX_ATTEMPTS && DrawsInRange(draw, |names|)
    requires Accepted(names, Candidates(names, draw)[a])
    requires forall b :: 0 <= b < a ==> !Accepted(names, Candidates(names, draw)[b])
    ensures Assign(names, draw) == Ok(PairsOf(names, MapOf(names, Candidates(names, draw)[a], |names|)))
  {
    TryFromFirst(names, Candidates(names, draw), 0, a);
  }

  // ---------------------------------------------------------------------
  // The acceptance test against the combinatorial definition
  // ---------------------------------------------------------------------

  /**
   * Position `i` gives to position `j` when `receivers[i]` is `names[j]`; a
   * derangement without 2-cycles has no position giving to itself and no two
   * positions giving to each other.
   */
  predicate DerangementWithoutTwoCycles(names: seq<string>, receivers: seq<string>)
    requires |names| == |receivers|
  {
    && (forall i :: 0 <= i < |names| ==> receivers[i] != names[i])
    && (forall i, j :: 0 <= i < |names| && 0 <= j < |names| && receivers[i] == names[j] ==> receivers[j] != names[i])
  }

  /**
   * For distinct names, the two passes accept a candidate exactly when it is
   * a derangement without 2-cycles.
   */
  lemma AcceptedIffDerangementWithoutTwoCycles(names: seq<string>, receivers: seq<string>)
    requires |names| == |receivers| && Distinct(names)
    ensures Accepted(names, receivers) <==> DerangementWithoutTwoCycles(names, receivers)
  {
    var m := MapOf(names, receivers, |names|);
    MapOfDistinct(names, receivers, |names|);
    if Accepted(names, receivers) {
      forall i, j | 0 <= i < |names| && 0 <= j < |names| && receivers[i] == names[j]
        ensures receivers[j] != names[i]
      {
        assert !Reciprocal(m, names[i]);
      }
    }
    if DerangementWithoutTwoCycles(names, receivers) {
      forall g | g in m
        ensures !Reciprocal(m, g)
      {
        MapOfKeys(names, receivers, |names|, g);
        var i :| 0 <= i < |names| && names[i] == g;
        if m[g] in m {
          MapOfKeys(names, receivers, |names|, m[g]);
          var j :| 0 <= j < |names| && names[j] == m[g];
          assert receivers[j] != names[i];
        }
      }
    }
  }

  /** Every key of the map is one of the first `k` givers. */
  lemma {:induction false} MapOfKeys(names: seq<string>, receivers: seq<string>, k: nat, g: string)
    requires k <= |names| == |receivers| && g in MapOf(names, receivers, k)
    ensures exists i :: 0 <= i < k && names[i] == g
  {
    if names[k - 1] != g {
      MapOfKeys(names, receivers, k - 1, g);
    }
  }

  /**
   * Two distinct participants admit no acceptable candidate: the only
   * derangement of two is a reciprocal pair, which is why `MIN_PLAYERS` is 3.
   */
  lemma TwoNamesNeverAccepted(names: seq<string>, receivers: seq<string>)
    requires |names| == 2 && Distinct(names)
    requires |receivers| == 2 && multiset(receivers) == multiset(names)
    ensures !Accepted(names, receivers)
  {
    AcceptedIffDerangementWithoutTwoCycles(names, receivers);
    if receivers[0] != names[0] && receivers[1] != names[1] {
      assert receivers[0] in multiset(names);
      assert receivers[1] in multiset(names);
      assert receivers[0] == names[1] && receivers[1] == names[0];
    }
  }

  /**
   * Of the rearrangements of three distinct participants, exactly the two
   * 3-cycles A -> B -> C -> A and A -> C -> B -> A are accepted.
   */
  lemma ThreeNamesOnlyCycles(names: seq<string>, receivers: seq<string>)
    requires |names| == 3 && Distinct(names)
    requires |receivers| == 3 && multiset(receivers) == multiset(names)
    ensures Accepted(names, receivers) <==>
      receivers == [names[1], names[2], names[0]] || receivers == [names[2], names[0], names[1]]
  {
    AcceptedIffDerangementWithoutTwoCycles(names, receivers);
    forall k | 0 <= k < 3
      ensures receivers[k] in names
    {
      assert receivers[k] in multiset(receivers);
    }
    if DerangementWithoutTwoCycles(names, receivers) {
      ThreeCycleForced(names, receivers);
    } else {
      ThreeCyclesAreDerangements(names);
    }
  }

  /** Both 3-cycles of three distinct names are derangements without 2-cycles. */
  lemma ThreeCyclesAreDerangements(names: seq<string>)
    requires |names| == 3 && Distinct(names)
    ensures DerangementWithoutTwoCycles(names, [names[1], names[2], names[0]])
    ensures DerangementWithoutTwoCycles(names, [names[2], names[0], names[1]])
  {
  }

  /** A derangement of three without 2-cycles, drawn from the three names, is one of the two 3-cycles. */
  lemma ThreeCycleForced(names: seq<string>, receivers: seq<string>)
    requires |names| == 3 && Distinct(names) && |receivers| == 3
    requires forall k :: 0 <= k < 3 ==> receivers[k] in names
    requires DerangementWithoutTwoCycles(names, receivers)
    ensures receivers == [names[1], names[2], names[0]] || receivers == [names[2], names[0], names[1]]
  {
    var a, b, c := names[0], names[1], names[2];
    assert names == [a, b, c];
    assert receivers[0] == b || receivers[0] == c;
    if receivers[0] == b {
      assert receivers[1] == c;
      assert receivers[2] == a;
    } else {
      assert receivers[2] == b;
      assert receivers[1] == a;
    }
  }

  /**
   * The engine makes at most `MAX_ATTEMPTS` candidate draws: two random
   * sources that agree on the draws of those rounds give the same outcome.
   */
  lemma AssignReadsOnlyItsRounds(names: seq<string>, p: Draws, q: Draws)
    requires DrawsInRange(p, |names|) && DrawsInRange(q, |names|)
    requires forall a: nat, k: nat :: a < MAX_ATTEMPTS && 0 < k < |names| ==> p(a)(k) == q(a)(k)
    ensures Assign(names, p) == Assign(names, q)
  {
    forall a | 0 <= a < MAX_ATTEMPTS
      ensures Candidates(names, p)[a] == Candidates(names, q)[a]
    {
      ShuffleDownReadsOnlyItsDraws(names, p(a), q(a), |names| - 1);
    }
    assert Candidates(names, p) == Candidates(names, q);
  }

  /**
   * The minimum is the only reason for `InsufficientParticipants`: no random
   * source makes the engine refuse a list as too short exactly when the list
   * has at least `MIN_PLAYERS` names.
   */
  lemma NeverTooFewIff(names: seq<string>)
    ensures (forall draw: Draws :: DrawsInRange(draw, |names|) ==> Assign(names, draw) != Err(InsufficientParticipants))
      <==> |names| >= MIN_PLAYERS
  {
    forall draw: Draws | DrawsInRange(draw, |names|)
      ensures Assign(names, draw) == Err(InsufficientParticipants) <==> |names| < MIN_PLAYERS
    {
      AssignRefusesTooFew(names, draw);
    }
    var first: Draws := attempt => i => 0;
    assert DrawsInRange(first, |names|);
  }

  /** A valid assignment for distinct names is an assignment set in its own right. */
  lemma ValidAssignmentIsAssignmentSet(names: seq<string>, ps: seq<Pair>)
    requires Distinct(names) && ValidAssignment(names, ps)
    ensures IsAssignmentSet(ps) && |ps| == |names|
  {
  }
}
