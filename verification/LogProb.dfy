/** Log-probabilities: a real number, or the logarithm of zero. */
module LogProbs {

  datatype LogProb = NegInf | Fin(value: real) {

    /** Product of probabilities. */
    function Plus(other: LogProb): LogProb {
      if NegInf? || other.NegInf? then NegInf else Fin(value + other.value)
    }

    /** Quotient by a non-zero probability. */
    function Minus(other: LogProb): LogProb
      requires other.Fin?
    {
      if NegInf? then NegInf else Fin(value - other.value)
    }

    predicate Below(other: LogProb) {
      other.Fin? && (NegInf? || value < other.value)
    }

    predicate AtMost(other: LogProb) {
      !other.Below(this)
    }
  }

  lemma PlusAssociates(a: LogProb, b: LogProb, c: LogProb)
    ensures a.Plus(b).Plus(c) == a.Plus(b.Plus(c))
  {
  }

  const ONE := Fin(0.0)

  /** Scores are compared as numbers; minus infinity is below all of them. */
  lemma BelowIsLess(a: real, b: real)
    ensures Fin(a).Below(Fin(b)) <==> a < b
    ensures NegInf.Below(Fin(a)) && !Fin(a).Below(NegInf) && !NegInf.Below(NegInf)
    ensures Fin(a).Plus(Fin(b)) == Fin(a + b) && Fin(a + b).Minus(Fin(b)) == Fin(a)
  {
  }
}
