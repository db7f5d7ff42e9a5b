/** The dynamic consortium key manager: a registry of members, each holding
    a Shamir share of one master secret, that admits members, retires them
    with a fresh sharing of the same secret, and produces threshold
    signatures. The first half states what each operation computes on a
    value-level view of the registry; the second half is the stateful
    manager, proved against it. */
module ConsortiumKeys {
  import opened ModArith
  import opened Primes
  import opened PolyMath
  import opened Polynomials
  import opened Outcomes

  /** What the registry knows about one member, apart from its id. */
  datatype MemberState = MemberState(share: int, publicKey: int, isActive: bool)

  function Min(a: int, b: int): int
  {
    if a < b then a else b
  }

  /** A freshly keyed active member: public key share^2 mod prime. */
  function Keyed(share: int, prime: int): MemberState
    requires prime > 0
  {
    MemberState(share, ModPow(share, 2, prime), true)
  }

  /** Every active member holds the share F(id) of the polynomial F. */
  predicate SharesOnPolynomial(reg: map<int, MemberState>, poly: seq<int>, prime: int)
    requires prime > 0
  {
    forall k :: k in reg && reg[k].isActive ==> reg[k] == Keyed(Eval(poly, k, prime), prime)
  }

  function ActiveIds(reg: map<int, MemberState>): set<int>
  {
    set k | k in reg && reg[k].isActive
  }

  predicate Qualifies(reg: map<int, MemberState>, k: int, exclude: set<int>)
  {
    k in reg && reg[k].isActive && k !in exclude
  }

  /** The (id, share) pairs of the active, non-excluded members among ids,
      in the order of ids. */
  function Eligible(ids: seq<int>, reg: map<int, MemberState>, exclude: set<int>): seq<(int, int)>
  {
    if |ids| == 0 then []
    else
      var k := ids[|ids| - 1];
      Eligible(ids[..|ids| - 1], reg, exclude) + if Qualifies(reg, k, exclude) then [(k, reg[k].share)] else []
  }

  /** What `collect_threshold_shares` returns: the first max(threshold, 1)
      eligible pairs (the loop appends before it tests the count), or None
      when fewer than threshold members are eligible. */
  function Collected(ids: seq<int>, reg: map<int, MemberState>, threshold: int, exclude: set<int>): Option<seq<(int, int)>>
  {
    var e := Eligible(ids, reg, exclude);
    if |e| >= threshold then Some(e[..Min(|e|, Max(threshold, 1))]) else None
  }

  /** Python's `s[:n]`, negative n counting from the end. */
  function PyPrefix(s: seq<int>, n: int): (r: seq<int>)
    ensures |r| <= |s| && r == s[..|r|]
  {
    if n >= 0 then s[..Min(n, |s|)] else s[..Max(|s| + n, 0)]
  }

  /** The (id, share) pairs of the signers that are known and active. */
  function SignerShares(signers: seq<int>, reg: map<int, MemberState>): seq<(int, int)>
  {
    Eligible(signers, reg, {})
  }

  /** The polynomial a quorum reconstructs: nothing when the quorum is
      missing or empty (`if not shares`), the ValueError of interpolation on
      colliding ids, else the interpolated coefficients. */
  function Reconstruct(shares: Option<seq<(int, int)>>, prime: int): Outcome<Option<seq<int>>>
    requires prime > 0
  {
    match shares
    case None => Returned(None)
    case Some(s) =>
      if |s| == 0 then Returned(None)
      else match InterpolateSpec(s, prime)
        case Raised(e) => Raised(e)
        case Returned(poly) => Returned(Some(poly.coefficients))
  }

  /** The share `add_member` hands out: nothing for a known id or without
      a quorum, else the reconstructed polynomial at the new id. */
  function AddedShare(reg: map<int, MemberState>, ids: seq<int>, threshold: int, prime: int, newId: int): Outcome<Option<int>>
    requires prime > 0
  {
    if newId in reg then Returned(None)
    else match Reconstruct(Collected(ids, reg, threshold, {}), prime)
      case Raised(e) => Raised(e)
      case Returned(None) => Returned(None)
      case Returned(Some(c)) => Returned(Some(Eval(c, newId, prime)))
  }

  /** The polynomial `remove_member` re-shares with: nothing for an unknown
      or inactive id or without a quorum of other members, else the
      reconstructed constant term followed by the fresh draws. */
  function RemovalPolynomial(reg: map<int, MemberState>, ids: seq<int>, threshold: int, prime: int,
                             leaving: int, draws: seq<int>): Outcome<Option<seq<int>>>
    requires prime > 0
  {
    if leaving !in reg || !reg[leaving].isActive then Returned(None)
    else match Reconstruct(Collected(ids, reg, threshold, {leaving}), prime)
      case Raised(e) => Raised(e)
      case Returned(None) => Returned(None)
      case Returned(Some(c)) => if |c| == 0 then Returned(None) else Returned(Some([c[0]] + draws))
  }

  /** The registry after a removal: the other active members re-keyed on
      the new polynomial, the leaver flagged inactive. */
  function Redistributed(reg: map<int, MemberState>, leaving: int, poly: seq<int>, prime: int): (r: map<int, MemberState>)
    requires prime > 0
    ensures r.Keys == reg.Keys
    ensures forall k :: k in reg && !reg[k].isActive ==> r[k] == reg[k]
    ensures forall k :: k in reg ==> r[k].isActive == (reg[k].isActive && k != leaving)
  {
    map k | k in reg :: if k == leaving then reg[k].(isActive := false) else Rekeyed(reg, leaving, poly, prime, k)
  }

  /** The entry of k once the redistribution loop has visited it. */
  function Rekeyed(reg: map<int, MemberState>, leaving: int, poly: seq<int>, prime: int, k: int): MemberState
    requires prime > 0 && k in reg
  {
    if k != leaving && reg[k].isActive then Keyed(Eval(poly, k, prime), prime) else reg[k]
  }

  /** What `sign_message` returns or raises for the message hash msgHash. */
  function Signature(reg: map<int, MemberState>, threshold: int, prime: int, msgHash: nat, signers: seq<int>): Outcome<Option<int>>
    requires prime > 0
  {
    if |signers| < threshold then Returned(None)
    else
      var shares := SignerShares(PyPrefix(signers, threshold), reg);
      if |shares| < threshold then Returned(None)
      else match InterpolateSpec(shares, prime)
        case Raised(e) => Raised(e)
        case Returned(poly) => Returned(Some(ModPow(msgHash, poly.coefficients[0], prime)))
  }

  // ---------------------------------------------------------------------
  // Properties of the value-level operations

  predicate NoDuplicates(ids: seq<int>)
  {
    forall i, j :: 0 <= i < j < |ids| ==> ids[i] != ids[j]
  }

  /** Eligible keeps, in order, exactly the qualifying ids with their shares. */
  lemma {:induction false} EligibleFacts(ids: seq<int>, reg: map<int, MemberState>, exclude: set<int>)
    ensures var e := Eligible(ids, reg, exclude);
            |e| <= |ids| &&
            (forall i :: 0 <= i < |e| ==>
               Qualifies(reg, e[i].0, exclude) && e[i].1 == reg[e[i].0].share && e[i].0 in ids) &&
            (|e| == |ids| <==> forall i :: 0 <= i < |ids| ==> Qualifies(reg, ids[i], exclude)) &&
            (NoDuplicates(ids) ==> NoDuplicates(Xs(e)))
    decreases |ids|
  {
    if |ids| > 0 {
      var n := |ids| - 1;
      var front := ids[..n];
      EligibleFacts(front, reg, exclude);
      var e, ef := Eligible(ids, reg, exclude), Eligible(front, reg, exclude);
      forall i | 0 <= i < |e|
        ensures Qualifies(reg, e[i].0, exclude) && e[i].1 == reg[e[i].0].share && e[i].0 in ids
      {
        if i < |ef| {
          assert e[i] == ef[i];
          assert e[i].0 in front;
        }
      }
      if |e| == |ids| {
        assert |ef| == n;
        forall i | 0 <= i < |ids| ensures Qualifies(reg, ids[i], exclude) {
          if i < n { assert ids[i] == front[i]; }
        }
      }
      if forall i :: 0 <= i < |ids| ==> Qualifies(reg, ids[i], exclude) {
        forall i | 0 <= i < n ensures Qualifies(reg, front[i], exclude) {
          assert front[i] == ids[i];
        }
      }
      if NoDuplicates(ids) {
        assert NoDuplicates(front);
        forall i | 0 <= i < |ef| ensures ef[i].0 != ids[n] {
          var k :| 0 <= k < n && front[k] == ef[i].0;
        }
      }
    }
  }

  /** The eligible pairs of a prefix of ids are a prefix of the eligible
      pairs of ids. */
  lemma {:induction false} EligiblePrefix(ids: seq<int>, j: nat, reg: map<int, MemberState>, exclude: set<int>)
    requires j <= |ids|
    ensures var e, ej := Eligible(ids, reg, exclude), Eligible(ids[..j], reg, exclude);
            |ej| <= |e| && ej == e[..|ej|]
    decreases |ids|
  {
    if j < |ids| {
      var n := |ids| - 1;
      assert ids[..n][..j] == ids[..j];
      EligiblePrefix(ids[..n], j, reg, exclude);
    } else {
      assert ids[..j] == ids;
    }
  }

  /** `collect_threshold_shares` returns None exactly when fewer than
      threshold members are eligible; otherwise the first
      min(eligible, max(threshold, 1)) eligible pairs -- exactly threshold
      of them when threshold >= 1 -- each an active, non-excluded member
      with its own share, without repeated ids. */
  lemma CollectedProperties(ids: seq<int>, reg: map<int, MemberState>, threshold: int, exclude: set<int>)
    requires NoDuplicates(ids)
    ensures var e := Eligible(ids, reg, exclude);
            var c := Collected(ids, reg, threshold, exclude);
            (c.None? <==> |e| < threshold) &&
            (c.Some? ==>
               |c.value| == Min(|e|, Max(threshold, 1)) && c.value == e[..|c.value|] &&
               (threshold >= 1 ==> |c.value| == threshold) &&
               NoDuplicates(Xs(c.value)) &&
               forall i :: 0 <= i < |c.value| ==>
                 Qualifies(reg, c.value[i].0, exclude) && c.value[i].1 == reg[c.value[i].0].share)
  {
    EligibleFacts(ids, reg, exclude);
    var e := Eligible(ids, reg, exclude);
    var c := Collected(ids, reg, threshold, exclude);
    if c.Some? {
      forall i, j | 0 <= i < j < |c.value| ensures Xs(c.value)[i] != Xs(c.value)[j] {
        assert c.value[i] == e[i] && c.value[j] == e[j];
        assert Xs(e)[i] != Xs(e)[j];
      }
    }
  }

  /** Interpolating shares that all lie on F, with at least as many shares
      as F has coefficients, gives a polynomial equal to F everywhere modulo
      the prime; in particular its constant term is F(0). */
  lemma QuorumRecovers(shares: seq<(int, int)>, poly: seq<int>, prime: int)
    requires IsPrime(prime) && |poly| <= |shares|
    requires forall i :: 0 <= i < |shares| ==> shares[i].1 == Eval(poly, shares[i].0, prime)
    requires InterpolateSpec(shares, prime).Returned?
    ensures var c := InterpolateSpec(shares, prime).value.coefficients;
            c[0] == Eval(poly, 0, prime) && forall z :: Eval(c, z, prime) == Eval(poly, z, prime)
  {
    InterpolateSucceedsIff(shares, prime);
    forall i | 0 <= i < |shares| ensures Eval(poly, shares[i].0, prime) == shares[i].1 % prime {
      ModSmall(shares[i].1, prime);
    }
    InterpolateUnique(shares, poly, prime);
    var c := InterpolateSpec(shares, prime).value.coefficients;
    PolyValueAtZero(c, prime);
    ModSmall(c[0], prime);
    assert Eval(c, 0, prime) == Eval(poly, 0, prime);
  }

  /** Pairs drawn from the registry lie on the polynomial the active
      members' shares lie on. */
  lemma EligibleOnPolynomial(ids: seq<int>, reg: map<int, MemberState>, exclude: set<int>, poly: seq<int>, prime: int)
    requires prime > 0 && SharesOnPolynomial(reg, poly, prime)
    ensures var e := Eligible(ids, reg, exclude);
            forall i :: 0 <= i < |e| ==> e[i].1 == Eval(poly, e[i].0, prime)
  {
    EligibleFacts(ids, reg, exclude);
  }

  /** The quorum's reconstruction agrees with the sharing polynomial, and
      it raises exactly when two ids of a non-empty quorum coincide modulo
      the prime. */
  lemma ReconstructOnPolynomial(ids: seq<int>, reg: map<int, MemberState>, threshold: int, exclude: set<int>,
                                poly: seq<int>, prime: int)
    requires IsPrime(prime) && SharesOnPolynomial(reg, poly, prime) && |poly| == Max(threshold, 1)
    ensures var e := Eligible(ids, reg, exclude);
            var r := Reconstruct(Collected(ids, reg, threshold, exclude), prime);
            (r == Returned(None) <==> |e| < Max(threshold, 1)) &&
            (r.Raised? ==> r.error == NotInvertible) &&
            (r.Returned? && r.value.Some? ==>
               r.value.value[0] == Eval(poly, 0, prime) &&
               forall z :: Eval(r.value.value, z, prime) == Eval(poly, z, prime))
    ensures var c := Collected(ids, reg, threshold, exclude);
            Reconstruct(c, prime).Raised? <==> c.Some? && |c.value| > 0 && !DistinctMod(Xs(c.value), prime)
  {
    var e := Eligible(ids, reg, exclude);
    var c := Collected(ids, reg, threshold, exclude);
    EligibleOnPolynomial(ids, reg, exclude, poly, prime);
    assert forall i :: 0 <= i < |Eligible(ids, reg, exclude)| ==> Eligible(ids, reg, exclude)[i].1 == Eval(poly, Eligible(ids, reg, exclude)[i].0, prime);
    if c.Some? && |c.value| > 0 {
      var s := c.value;
      assert s == e[..|s|];
      InterpolateSucceedsIff(s, prime);
      if InterpolateSpec(s, prime).Returned? {
        assert |s| <= |e|;
        forall i | 0 <= i < |s| ensures s[i].1 == Eval(poly, s[i].0, prime) {
          assert s[i] == e[i];
          assert e[i].1 == Eval(poly, e[i].0, prime);
        }
        QuorumRecovers(s, poly, prime);
      }
    }
  }

  /** `add_member` hands out nothing for a known id or without a quorum,
      and otherwise the value of the sharing polynomial at the new id: the
      newcomer's share lies on the same polynomial as everyone else's. It
      raises only when two ids of the quorum coincide modulo the prime. */
  lemma AddedShareOnPolynomial(reg: map<int, MemberState>, ids: seq<int>, threshold: int, prime: int,
                               newId: int, poly: seq<int>)
    requires IsPrime(prime) && SharesOnPolynomial(reg, poly, prime) && |poly| == Max(threshold, 1)
    ensures var a := AddedShare(reg, ids, threshold, prime, newId);
            (a == Returned(None) <==> newId in reg || |Eligible(ids, reg, {})| < Max(threshold, 1)) &&
            (a.Raised? ==> a.error == NotInvertible) &&
            (a.Returned? && a.value.Some? ==> a.value.value == Eval(poly, newId, prime))
    ensures var c := Collected(ids, reg, threshold, {});
            AddedShare(reg, ids, threshold, prime, newId).Raised? <==>
              newId !in reg && c.Some? && |c.value| > 0 && !DistinctMod(Xs(c.value), prime)
  {
    ReconstructOnPolynomial(ids, reg, threshold, {}, poly, prime);
  }

  /** Enrolling a new member with its share on the polynomial keeps every
      active member on it and adds exactly that id to the active ones. */
  lemma Enrolled(reg: map<int, MemberState>, k: int, poly: seq<int>, prime: int)
    requires prime > 0 && SharesOnPolynomial(reg, poly, prime)
    ensures var r := reg[k := Keyed(Eval(poly, k, prime), prime)];
            SharesOnPolynomial(r, poly, prime) && ActiveIds(r) == ActiveIds(reg) + {k}
  {
  }

  /** Re-keying on any polynomial keeps every active member on it and
      retires exactly the leaver. */
  lemma RedistributedOnPolynomial(reg: map<int, MemberState>, leaving: int, poly: seq<int>, prime: int)
    requires prime > 0
    ensures var r := Redistributed(reg, leaving, poly, prime);
            SharesOnPolynomial(r, poly, prime) && ActiveIds(r) == ActiveIds(reg) - {leaving}
  {
  }

  /** `remove_member` does nothing for an unknown or inactive id or without
      a quorum of other active members; otherwise it re-shares with a
      polynomial of the same length whose constant term is the old one, so
      the shared secret never changes. It raises only when two ids of the
      quorum coincide modulo the prime. */
  lemma RemovalKeepsSecret(reg: map<int, MemberState>, ids: seq<int>, threshold: int, prime: int,
                           leaving: int, draws: seq<int>, poly: seq<int>)
    requires IsPrime(prime) && SharesOnPolynomial(reg, poly, prime) && |poly| == Max(threshold, 1)
    requires |draws| == Max(threshold - 1, 0)
    ensures var r := RemovalPolynomial(reg, ids, threshold, prime, leaving, draws);
            (r == Returned(None) <==>
               leaving !in ActiveIds(reg) || |Eligible(ids, reg, {leaving})| < Max(threshold, 1)) &&
            (r.Raised? ==> r.error == NotInvertible) &&
            (r.Returned? && r.value.Some? ==>
               leaving in ActiveIds(reg) &&
               r.value.value == [Eval(poly, 0, prime)] + draws && |r.value.value| == Max(threshold, 1))
    ensures var c := Collected(ids, reg, threshold, {leaving});
            RemovalPolynomial(reg, ids, threshold, prime, leaving, draws).Raised? <==>
              leaving in ActiveIds(reg) && c.Some? && |c.value| > 0 && !DistinctMod(Xs(c.value), prime)
  {
    if leaving in reg && reg[leaving].isActive {
      ReconstructOnPolynomial(ids, reg, threshold, {leaving}, poly, prime);
    }
  }

  /** When every id qualifies, Eligible keeps all of them, in order. */
  lemma {:induction false} EligibleAllQualify(ids: seq<int>, reg: map<int, MemberState>, exclude: set<int>)
    requires forall i :: 0 <= i < |ids| ==> Qualifies(reg, ids[i], exclude)
    ensures Xs(Eligible(ids, reg, exclude)) == ids
    decreases |ids|
  {
    if |ids| > 0 {
      var n := |ids| - 1;
      forall i | 0 <= i < n ensures Qualifies(reg, ids[..n][i], exclude) {
        assert ids[..n][i] == ids[i];
      }
      EligibleAllQualify(ids[..n], reg, exclude);
      assert Eligible(ids, reg, exclude) == Eligible(ids[..n], reg, exclude) + [(ids[n], reg[ids[n]].share)];
      assert ids == ids[..n] + [ids[n]];
    }
  }

  /** `sign_message` answers None exactly when there are fewer than
      threshold signers or one of the first threshold is unknown or
      inactive; it raises exactly when the first threshold signers all
      qualify but two of them coincide modulo the prime; otherwise it
      returns hash^F(0) mod prime. */
  lemma SignatureIsSecretPower(reg: map<int, MemberState>, threshold: int, prime: int, msgHash: nat,
                               signers: seq<int>, poly: seq<int>)
    requires IsPrime(prime) && SharesOnPolynomial(reg, poly, prime) && |poly| == Max(threshold, 1)
    requires threshold >= 1
    ensures var r := Signature(reg, threshold, prime, msgHash, signers);
            (r == Returned(None) <==>
               |signers| < threshold ||
               exists i :: 0 <= i < threshold && !(signers[i] in reg && reg[signers[i]].isActive)) &&
            (r.Raised? ==> r.error == NotInvertible) &&
            (r.Returned? && r.value.Some? ==> r.value.value == ModPow(msgHash, Eval(poly, 0, prime), prime))
    ensures Signature(reg, threshold, prime, msgHash, signers).Raised? <==>
              |signers| >= threshold &&
              (forall i :: 0 <= i < threshold ==> signers[i] in reg && reg[signers[i]].isActive) &&
              !DistinctMod(signers[..threshold], prime)
  {
    if |signers| >= threshold {
      var first := PyPrefix(signers, threshold);
      assert first == signers[..threshold];
      var shares := SignerShares(first, reg);
      EligibleFacts(first, reg, {});
      if forall i :: 0 <= i < threshold ==> signers[i] in reg && reg[signers[i]].isActive {
        forall i | 0 <= i < |first| ensures Qualifies(reg, first[i], {}) {
          assert first[i] == signers[i];
        }
        EligibleAllQualify(first, reg, {});
      }
      EligibleOnPolynomial(first, reg, {}, poly, prime);
      InterpolateSucceedsIff(shares, prime);
      if |shares| >= threshold && InterpolateSpec(shares, prime).Returned? {
        QuorumRecovers(shares, poly, prime);
      }
      if exists i :: 0 <= i < threshold && !(signers[i] in reg && reg[signers[i]].isActive) {
        var i :| 0 <= i < threshold && !(signers[i] in reg && reg[signers[i]].isActive);
        assert !Qualifies(reg, first[i], {});
      }
    }
  }

  /** Signers past the first threshold never influence the signature. */
  lemma SignersBeyondThresholdIgnored(reg: map<int, MemberState>, threshold: int, prime: int, msgHash: nat,
                                      signers: seq<int>)
    requires prime > 0 && 0 <= threshold <= |signers|
    ensures Signature(reg, threshold, prime, msgHash, signers) ==
            Signature(reg, threshold, prime, msgHash, signers[..threshold])
  {
    assert PyPrefix(signers[..threshold], threshold) == PyPrefix(signers, threshold);
  }

  // ---------------------------------------------------------------------
  // The stateful manager

  lemma {:induction false} RangeCard(s: set<int>, n: nat)
    requires forall k :: k in s <==> 1 <= k <= n
    ensures |s| == n
    decreases n
  {
    if n > 0 {
      RangeCard(s - {n}, n - 1);
    } else {
      forall k ensures k !in s {
        assert k in s ==> 1 <= k <= n;
      }
      assert s == {};
    }
  }

  lemma IdsDistinct(n: nat)
    ensures NoDuplicates(Ids(n))
  {
    var ids := Ids(n);
    assert CountsUp(ids);
    forall i, j | 0 <= i < j < |ids| ensures ids[i] != ids[j] {
      assert ids[i] == i + 1 && ids[j] == j + 1;
    }
  }

  lemma AllKeyed(reg: map<int, MemberState>, poly: seq<int>, prime: int)
    requires prime > 0 && forall k :: k in reg ==> reg[k] == Keyed(Eval(poly, k, prime), prime)
    ensures SharesOnPolynomial(reg, poly, prime) && ActiveIds(reg) == reg.Keys
  {
    forall k | k in reg ensures k in ActiveIds(reg) {
      assert reg[k].isActive;
    }
  }

  /** ids is 1, 2, ..., |ids|. */
  predicate CountsUp(ids: seq<int>)
  {
    forall j :: 0 <= j < |ids| ==> ids[j] == j + 1
  }

  /** The ids 1, 2, ..., n. */
  function Ids(n: nat): (r: seq<int>)
    ensures |r| == n && CountsUp(r)
  {
    if n == 0 then [] else Ids(n - 1) + [n]
  }

  /** A consortium member. Its id is fixed; share, public key and the
      active flag are rewritten in place. */
  class Member {
    const id: int
    var share: int
    var publicKey: int
    var isActive: bool

    constructor (id: int, share: int, publicKey: int)
      ensures this.id == id && this.share == share && this.publicKey == publicKey && isActive
    {
      this.id := id;
      this.share := share;
      this.publicKey := publicKey;
      isActive := true;
    }

    ghost function State(): MemberState
      reads this
    {
      MemberState(share, publicKey, isActive)
    }
  }

  /** The states of the members of a registry, by id. */
  ghost function States(members: map<int, Member>): map<int, MemberState>
    reads members.Values
  {
    map k | k in members :: members[k].State()
  }

  class ConsortiumKeyManager {
    const threshold: int
    const prime: int
    var members: map<int, Member>
    /** The ids in insertion order, which is the order in which the members
        dictionary is iterated; ids are never deleted. */
    var order: seq<int>
    var activeMemberCount: int
    var masterSecret: int
    /** The polynomial the active members' shares currently lie on. */
    ghost var poly: seq<int>

    /** The registry as values. */
    ghost function View(): map<int, MemberState>
      reads this, members.Values
    {
      States(members)
    }

    /** The active members' shares lie on one polynomial with threshold
        coefficients (at least one) whose constant term is the master
        secret; the count tracks the active members. */
    ghost predicate Valid()
      reads this, members.Values
    {
      IsPrime(prime) &&
      |poly| == Max(threshold, 1) && poly[0] == masterSecret && 0 <= masterSecret < prime &&
      NoDuplicates(order) && (forall k :: k in members <==> k in order) &&
      (forall k :: k in members ==> members[k].id == k) &&
      SharesOnPolynomial(View(), poly, prime) &&
      activeMemberCount == |ActiveIds(View())|
    }

    /** `__init__`: refuses a threshold above the number of initial
        members before anything is drawn, then sets up the sharing. The
        prime, the master secret and the threshold - 1 further coefficients
        are the draws. */
    static method Create(threshold: int, initialMembers: int, prime: int, masterSecret: int, draws: seq<int>)
      returns (r: Outcome<ConsortiumKeyManager>)
      requires IsPrime(prime) && 2 <= masterSecret < prime
      requires |draws| == Max(threshold - 1, 0) && forall i :: 0 <= i < |draws| ==> 2 <= draws[i] < prime
      ensures r.Raised? <==> threshold > initialMembers
      ensures r.Raised? ==> r.error == ThresholdTooLarge
      ensures r.Returned? ==>
                fresh(r.value) && r.value.Valid() && r.value.threshold == threshold &&
                r.value.prime == prime && r.value.masterSecret == masterSecret &&
                r.value.order == Ids(Max(initialMembers, 0)) &&
                ActiveIds(r.value.View()) == r.value.members.Keys
    {
      if threshold > initialMembers {
        return Raised(ThresholdTooLarge);
      }
      var m := new ConsortiumKeyManager(threshold, initialMembers, prime, masterSecret, draws);
      return Returned(m);
    }

    constructor (threshold: int, initialMembers: int, prime: int, masterSecret: int, draws: seq<int>)
      requires threshold <= initialMembers
      requires IsPrime(prime) && 2 <= masterSecret < prime
      requires |draws| == Max(threshold - 1, 0) && forall i :: 0 <= i < |draws| ==> 2 <= draws[i] < prime
      ensures Valid() && this.threshold == threshold && this.prime == prime
      ensures this.masterSecret == masterSecret && poly == [masterSecret] + draws
      ensures order == Ids(Max(initialMembers, 0))
      ensures ActiveIds(View()) == members.Keys
    {
      this.threshold := threshold;
      this.prime := prime;
      members := map[];
      order := [];
      activeMemberCount := 0;
      new;
      SetupInitialShares(initialMembers, masterSecret, draws);
    }

    /** `setup_initial_shares`: members 1..n, each active with the share
        F(i) of F = [masterSecret] + draws and public key F(i)^2. */
    method SetupInitialShares(n: int, masterSecret: int, draws: seq<int>)
      requires members == map[] && order == [] && activeMemberCount == 0
      requires IsPrime(prime) && 2 <= masterSecret < prime
      requires |draws| == Max(threshold - 1, 0) && forall i :: 0 <= i < |draws| ==> 2 <= draws[i] < prime
      modifies this
      ensures Valid()
      ensures this.masterSecret == masterSecret && poly == [masterSecret] + draws
      ensures order == Ids(Max(n, 0))
      ensures ActiveIds(View()) == members.Keys
    {
      this.masterSecret := masterSecret;
      var coefficients := [masterSecret] + draws;
      poly := coefficients;
      var f := Polynomial(coefficients, prime);
      var i := 1;
      while i <= n
        invariant 1 <= i <= Max(n, 0) + 1
        invariant poly == coefficients && this.masterSecret == masterSecret
        invariant order == Ids(i - 1)
        invariant forall k :: k in members <==> 1 <= k < i
        invariant forall k :: k in members ==>
          members[k].id == k && members[k].isActive &&
          members[k].share == Eval(coefficients, k, prime) &&
          members[k].publicKey == ModPow(members[k].share, 2, prime)
        invariant activeMemberCount == i - 1
      {
        var share := Evaluate(f, i);
        var publicKey := ModPow(share, 2, prime);
        var member := new Member(i, share, publicKey);
        members, order := members[i := member], order + [i];
        activeMemberCount := activeMemberCount + 1;
        i := i + 1;
      }
      SetUpIsValid(i - 1);
    }

    /** The state setup_initial_shares leaves behind is a valid one. */
    lemma SetUpIsValid(n: nat)
      requires IsPrime(prime) && |poly| == Max(threshold, 1) && poly[0] == masterSecret && 0 <= masterSecret < prime
      requires order == Ids(n) && forall k :: k in members <==> 1 <= k <= n
      requires forall k :: k in members ==>
          members[k].id == k && members[k].isActive &&
          members[k].share == Eval(poly, k, prime) &&
          members[k].publicKey == ModPow(members[k].share, 2, prime)
      requires activeMemberCount == n
      ensures Valid() && ActiveIds(View()) == members.Keys
    {
      var reg := View();
      assert forall k :: k in reg ==> reg[k] == Keyed(Eval(poly, k, prime), prime);
      AllKeyed(reg, poly, prime);
      assert reg.Keys == members.Keys;
      RangeCard(members.Keys, n);
      forall k ensures k in members <==> k in order {
        if 1 <= k <= n {
          assert order[k - 1] == k;
        }
      }
      IdsDistinct(n);
    }

    /** `collect_threshold_shares`: walks the members in insertion order,
        appending the (id, share) of every active member outside exclude and
        stopping as soon as threshold pairs are collected. */
    method CollectThresholdShares(exclude: set<int>) returns (r: Option<seq<(int, int)>>)
      requires Valid()
      ensures r == Collected(order, View(), threshold, exclude)
    {
      ghost var reg := View();
      var shares := [];
      var i := 0;
      while i < |order|
        invariant 0 <= i <= |order|
        invariant shares == Eligible(order[..i], reg, exclude)
        invariant |shares| < Max(threshold, 1)
      {
        var member := members[order[i]];
        assert order[..i + 1][..i] == order[..i];
        if member.isActive && member.id !in exclude {
          shares := shares + [(member.id, member.share)];
          if |shares| >= threshold {
            EligiblePrefix(order, i + 1, reg, exclude);
            break;
          }
        }
        i := i + 1;
      }
      if i == |order| {
        assert order[..i] == order;
      }
      r := if |shares| >= threshold then Some(shares) else None;
    }

    /** `add_member`: None for a known id or without a quorum; the
        ValueError of interpolation when the quorum's ids collide modulo the
        prime; otherwise a fresh active member whose share is the
        reconstructed polynomial at its id, appended to the registry. */
    method AddMember(newMemberId: int) returns (r: Outcome<Option<Member>>)
      requires Valid()
      modifies this
      ensures Valid() && poly == old(poly) && masterSecret == old(masterSecret)
      ensures var a := AddedShare(old(View()), old(order), threshold, prime, newMemberId);
              (r.Raised? <==> a.Raised?) && (r.Raised? ==> r.error == a.error) &&
              (r.Returned? ==> (r.value.Some? <==> a.value.Some?))
      ensures r.Returned? && r.value.Some? ==>
                var m := r.value.value;
                fresh(m) && m.id == newMemberId && m.isActive &&
                m.share == AddedShare(old(View()), old(order), threshold, prime, newMemberId).value.value &&
                m.publicKey == ModPow(m.share, 2, prime) &&
                members == old(members)[newMemberId := m] && order == old(order) + [newMemberId] &&
                View() == old(View())[newMemberId := Keyed(m.share, prime)] &&
                activeMemberCount == old(activeMemberCount) + 1
      ensures !(r.Returned? && r.value.Some?) ==>
                members == old(members) && order == old(order) && activeMemberCount == old(activeMemberCount)
    {
      var share := NewShare(newMemberId);
      if share.Raised? {
        return Raised(share.error);
      }
      if share.value.None? {
        return Returned(None);
      }
      AddedShareOnPolynomial(View(), order, threshold, prime, newMemberId, poly);
      var member := Enroll(newMemberId, share.value.value);
      return Returned(Some(member));
    }

    /** The first half of `add_member`: the share a newcomer would receive,
        computed from a quorum of the current members. */
    method NewShare(newMemberId: int) returns (r: Outcome<Option<int>>)
      requires Valid()
      ensures r == AddedShare(View(), order, threshold, prime, newMemberId)
    {
      PrimeModulus();
      if newMemberId in members {
        return Returned(None);
      }
      var shares := CollectThresholdShares({});
      if shares.None? || |shares.value| == 0 {
        return Returned(None);
      }
      var f := Interpolate(shares.value, prime);
      if f.Raised? {
        return Raised(f.error);
      }
      var share := Evaluate(f.value, newMemberId);
      return Returned(Some(share));
    }

    lemma PrimeModulus()
      requires Valid()
      ensures IsPrime(prime) && prime > 1
    {
    }

    /** The tail of `add_member`: registers a fresh active member with the
        given share, which lies on the sharing polynomial, and its public
        key share^2 mod prime. */
    method Enroll(id: int, share: int) returns (m: Member)
      requires Valid() && id !in members && share == Eval(poly, id, prime)
      modifies this
      ensures Valid() && poly == old(poly) && masterSecret == old(masterSecret)
      ensures fresh(m) && m.id == id && m.isActive && m.share == share && m.publicKey == ModPow(share, 2, prime)
      ensures members == old(members)[id := m] && order == old(order) + [id]
      ensures View() == old(View())[id := Keyed(share, prime)]
      ensures activeMemberCount == old(activeMemberCount) + 1
    {
      ghost var reg, prevOrder := View(), order;
      var publicKey := ModPow(share, 2, prime);
      m := new Member(id, share, publicKey);
      members := members[id := m];
      order := order + [id];
      activeMemberCount := activeMemberCount + 1;
      EnrolledIsValid(reg, prevOrder, id);
    }

    /** The registry add_member leaves behind is valid again. */
    lemma EnrolledIsValid(reg: map<int, MemberState>, prevOrder: seq<int>, k: int)
      requires IsPrime(prime) && |poly| == Max(threshold, 1) && poly[0] == masterSecret && 0 <= masterSecret < prime
      requires SharesOnPolynomial(reg, poly, prime) && k !in reg
      requires View() == reg[k := Keyed(Eval(poly, k, prime), prime)]
      requires NoDuplicates(prevOrder) && (forall j :: j in reg <==> j in prevOrder) && order == prevOrder + [k]
      requires forall j :: j in members <==> j in order
      requires forall j :: j in members ==> members[j].id == j
      requires activeMemberCount == |ActiveIds(reg)| + 1
      ensures Valid()
    {
      Enrolled(reg, k, poly, prime);
    }

    /** `remove_member`: False for an unknown or inactive id or without a
        quorum of the other active members; the ValueError of interpolation
        when that quorum's ids collide modulo the prime; otherwise every other
        active member is re-keyed on [secret] + draws, the leaver is
        deactivated and the answer is True. */
    method RemoveMember(memberId: int, draws: seq<int>) returns (r: Outcome<bool>)
      requires Valid()
      requires |draws| == Max(threshold - 1, 0) && forall i :: 0 <= i < |draws| ==> 2 <= draws[i] < prime
      modifies this, members.Values
      ensures Valid() && masterSecret == old(masterSecret)
      ensures members == old(members) && order == old(order)
      ensures var c := RemovalPolynomial(old(View()), old(order), threshold, prime, memberId, draws);
              (r.Raised? <==> c.Raised?) && (r.Raised? ==> r.error == c.error) &&
              (r.Returned? ==> (r.value <==> c.value.Some?))
      ensures r == Returned(true) ==>
                var c := RemovalPolynomial(old(View()), old(order), threshold, prime, memberId, draws).value.value;
                poly == c && View() == Redistributed(old(View()), memberId, c, prime) &&
                activeMemberCount == old(activeMemberCount) - 1
      ensures r != Returned(true) ==>
                poly == old(poly) && View() == old(View()) && activeMemberCount == old(activeMemberCount)
    {
      var coefficients := RemovalCoefficients(memberId, draws);
      if coefficients.Raised? {
        return Raised(coefficients.error);
      }
      if coefficients.value.None? {
        return Returned(false);
      }
      RemovalKeepsSecret(View(), order, threshold, prime, memberId, draws, poly);
      assert Eval(poly, 0, prime) == masterSecret by {
        PolyValueAtZero(poly, prime);
        ModSmall(masterSecret, prime);
      }
      Redistribute(memberId, coefficients.value.value);
      return Returned(true);
    }

    /** The first half of `remove_member`: the polynomial the remaining
        members are re-keyed on, reconstructed from a quorum that leaves the
        departing member out. */
    method RemovalCoefficients(memberId: int, draws: seq<int>) returns (r: Outcome<Option<seq<int>>>)
      requires Valid()
      ensures r == RemovalPolynomial(View(), order, threshold, prime, memberId, draws)
    {
      PrimeModulus();
      if memberId !in members || !members[memberId].isActive {
        return Returned(None);
      }
      var shares := CollectThresholdShares({memberId});
      if shares.None? || |shares.value| == 0 {
        return Returned(None);
      }
      var f := Interpolate(shares.value, prime);
      if f.Raised? {
        return Raised(f.error);
      }
      var coefficients := [f.value.coefficients[0]] + draws;
      return Returned(Some(coefficients));
    }

    /** The second half of `remove_member`: every other active member, in
        insertion order, receives its share on the new polynomial and the
        matching public key; then the leaver is deactivated. */
    method Redistribute(leaving: int, coefficients: seq<int>)
      requires Valid() && leaving in members && members[leaving].isActive
      requires |coefficients| == Max(threshold, 1) && coefficients[0] == masterSecret
      modifies this, members.Values
      ensures Valid() && poly == coefficients && masterSecret == old(masterSecret)
      ensures members == old(members) && order == old(order)
      ensures View() == Redistributed(old(View()), leaving, coefficients, prime)
      ensures activeMemberCount == old(activeMemberCount) - 1
    {
      PrimeModulus();
      ghost var reg := View();
      Rekey(members, order, leaving, Polynomial(coefficients, prime));
      members[leaving].isActive := false;
      activeMemberCount := activeMemberCount - 1;
      poly := coefficients;
      RedistributedIsValid(reg, leaving);
    }

    /** The loop of `remove_member`: visits the members in insertion order
        and re-keys every active one except the leaver on f. */
    static method Rekey(members: map<int, Member>, order: seq<int>, leaving: int, f: Polynomial)
      requires f.prime > 0
      requires forall k :: k in members <==> k in order
      requires forall k :: k in members ==> members[k].id == k
      modifies members.Values
      ensures forall k :: k in members ==>
        members[k].State() == Rekeyed(old(States(members)), leaving, f.coefficients, f.prime, k)
    {
      ghost var reg := States(members);
      ghost var visited: set<int> := {};
      var i := 0;
      while i < |order|
        invariant 0 <= i <= |order|
        invariant forall j :: 0 <= j < i ==> order[j] in visited
        invariant forall k :: k in members ==>
          members[k].State() == if k in visited then Rekeyed(reg, leaving, f.coefficients, f.prime, k) else reg[k]
      {
        var id := order[i];
        assert id in order;
        var member := members[id];
        assert forall k :: k in members && k != id ==> members[k] != member;
        if member.id != leaving && member.isActive {
          var share := Evaluate(f, member.id);
          member.share := share;
          member.publicKey := ModPow(share, 2, f.prime);
        }
        visited := visited + {id};
        i := i + 1;
      }
    }

    /** The registry remove_member leaves behind is valid again. */
    lemma RedistributedIsValid(reg: map<int, MemberState>, leaving: int)
      requires IsPrime(prime) && |poly| == Max(threshold, 1) && poly[0] == masterSecret && 0 <= masterSecret < prime
      requires NoDuplicates(order) && (forall k :: k in members <==> k in order)
      requires forall k :: k in members ==> members[k].id == k
      requires reg.Keys == members.Keys && leaving in ActiveIds(reg)
      requires forall k :: k in members ==>
        members[k].State() == if k == leaving then reg[k].(isActive := false) else Rekeyed(reg, leaving, poly, prime, k)
      requires activeMemberCount == |ActiveIds(reg)| - 1
      ensures View() == Redistributed(reg, leaving, poly, prime)
      ensures Valid()
    {
      RedistributedOnPolynomial(reg, leaving, poly, prime);
    }

    /** `sign_message` for a message whose SHA-256 digest, read as a
        big-endian integer, is msgHash: None for fewer than threshold
        signers or when one of the first threshold is unknown or inactive;
        the ValueError of interpolation when two of them coincide modulo
        the prime; otherwise msgHash raised to the reconstructed secret.
        When the threshold is at least 1 such a signature passes
        VerifySignature. */
    method SignMessage(msgHash: nat, signers: seq<int>) returns (r: Outcome<Option<int>>)
      requires Valid()
      ensures r == Signature(View(), threshold, prime, msgHash, signers)
      ensures threshold >= 1 && r.Returned? && r.value.Some? ==> VerifySignature(msgHash, r.value.value)
    {
      PrimeModulus();
      if |signers| < threshold {
        return Returned(None);
      }
      ghost var reg := View();
      var first := PyPrefix(signers, threshold);
      var shares := [];
      var i := 0;
      while i < |first|
        invariant 0 <= i <= |first|
        invariant shares == SignerShares(first[..i], reg)
      {
        var id := first[i];
        assert first[..i + 1][..i] == first[..i];
        if id in members && members[id].isActive {
          shares := shares + [(id, members[id].share)];
        }
        i := i + 1;
      }
      assert first[..i] == first;
      if |shares| < threshold {
        return Returned(None);
      }
      var f := Interpolate(shares, prime);
      if f.Raised? {
        return Raised(f.error);
      }
      var secret := f.value.coefficients[0];
      r := Returned(Some(ModPow(msgHash, secret, prime)));
      if threshold >= 1 {
        SignatureIsSecretPower(reg, threshold, prime, msgHash, signers, poly);
        PolyValueAtZero(poly, prime);
        ModSmall(masterSecret, prime);
      }
    }

    /** `verify_signature`: the signature must equal msgHash raised to the
        master secret modulo the prime. */
    predicate VerifySignature(msgHash: nat, signature: int)
      requires Valid()
      reads this, members.Values
    {
      signature == ModPow(msgHash, masterSecret, prime)
    }

    /** The sign/verify round trip: when the first threshold signers are
        active members whose ids differ modulo the prime, `sign_message`
        returns a signature and `verify_signature` accepts it. */
    lemma SignThenVerify(msgHash: nat, signers: seq<int>)
      requires Valid() && threshold >= 1 && |signers| >= threshold
      requires forall i :: 0 <= i < threshold ==> signers[i] in members && members[signers[i]].isActive
      requires DistinctMod(signers[..threshold], prime)
      ensures Signature(View(), threshold, prime, msgHash, signers).Returned?
      ensures Signature(View(), threshold, prime, msgHash, signers).value.Some?
      ensures VerifySignature(msgHash, Signature(View(), threshold, prime, msgHash, signers).value.value)
    {
      var reg := View();
      forall i | 0 <= i < threshold ensures signers[i] in reg && reg[signers[i]].isActive {
        assert members[signers[i]].State().isActive;
      }
      SignatureIsSecretPower(reg, threshold, prime, msgHash, signers, poly);
      PolyValueAtZero(poly, prime);
      ModSmall(masterSecret, prime);
    }
  }
}
