/** Lock modes (crabstash-lock/src/lock_mode.rs) and the bounds of key ranges. */
module LockModes {
  import opened Bytes

  datatype LockMode = S | X | IS | IX | SIX {
    predicate IsCompatible(other: LockMode) {
      match (this, other)
      case (IS, IS) => true
      case (IS, IX) => true
      case (IS, S) => true
      case (IS, SIX) => true
      case (IX, IS) => true
      case (IX, IX) => true
      case (S, IS) => true
      case (S, S) => true
      case (SIX, IS) => true
      case _ => false
    }

    predicate CanUpgradeTo(target: LockMode) {
      match (this, target)
      case (S, X) => true
      case (S, SIX) => true
      case (IS, IX) => true
      case (IS, S) => true
      case (IS, X) => true
      case (IS, SIX) => true
      case (IX, X) => true
      case (IX, SIX) => true
      case _ => false
    }
  }

  lemma CompatibilityIsSymmetric(a: LockMode, b: LockMode)
    ensures a.IsCompatible(b) <==> b.IsCompatible(a)
  {
  }

  /**
   What a mode stands for: S and SIX read everything below, IX and SIX write some of it, X does both to all
   of it, IS reads some of it. Two modes clash when one is X, or one reads all that the other may write.
   */
  predicate Clash(a: LockMode, b: LockMode) {
    || X in {a, b}
    || (a in {S, SIX} && b in {IX, SIX})
    || (b in {S, SIX} && a in {IX, SIX})
  }

  lemma CompatibleIffNoClash(a: LockMode, b: LockMode)
    ensures a.IsCompatible(b) <==> !Clash(a, b)
  {
  }

  /** `b` keeps out everything that `a` keeps out, and more. */
  predicate Stronger(b: LockMode, a: LockMode) {
    a != b && forall m: LockMode :: Clash(a, m) ==> Clash(b, m)
  }

  /** An upgrade is a request for a stronger mode, except for X on top of SIX. */
  lemma UpgradeIffStronger(a: LockMode, b: LockMode)
    ensures a.CanUpgradeTo(b) <==> Stronger(b, a) && !(a.SIX? && b.X?)
  {
    if a != b && !a.SIX? && !a.CanUpgradeTo(b) {
      assert (Clash(a, S) && !Clash(b, S)) || (Clash(a, IX) && !Clash(b, IX)) || (Clash(a, IS) && !Clash(b, IS));
    }
    if a.SIX? && !b.X? {
      assert (Clash(a, S) && !Clash(b, S)) || (Clash(a, IX) && !Clash(b, IX)) || a == b;
    }
  }

  datatype Bound = Included(key: bytes) | Excluded(key: bytes) | Unbounded

  predicate AfterStart(key: bytes, start: Bound) {
    match start
    case Included(s) => Le(s, key)
    case Excluded(s) => Lt(s, key)
    case Unbounded => true
  }

  predicate BeforeEnd(key: bytes, end: Bound) {
    match end
    case Included(e) => Le(key, e)
    case Excluded(e) => Lt(key, e)
    case Unbounded => true
  }

  predicate InRange(key: bytes, start: Bound, end: Bound) {
    AfterStart(key, start) && BeforeEnd(key, end)
  }
}
