# Haldane kinetic factor

A model of `HaldaneKinetic`, the Haldane substrate-inhibition kinetic factor of
the iDynoMiCS reaction package. A kinetic factor is one multiplicative term of a
reaction rate, a function of one solute concentration S:

    rate(S)  = S / (Ks + S + S^2/Ki)
    rate'(S) = (Ks - S^2/Ki) / (Ks + S + S^2/Ki)^2

The factor keeps its two parameters, the half-saturation concentration `Ks` and
the inhibition concentration `Ki`, in one of two places:

- in its own fields, set by the two-argument constructor or by `init`, and read
  by the one-argument `kineticValue` and `kineticDiff`;
- in a caller-owned parameter array at a caller-supplied offset (`Ks` at the
  offset, `Ki` right after it), written by `initFromAgent` and read by the
  three-argument `kineticValue` and `kineticDiff`. This is the per-agent mode.

Files:

- `real_arith.dfy` (module `RealArith`): `Sq` (the square, as `ExtraMath.sq`)
  and small facts about real arithmetic used by the proofs.
- `haldane_law.dfy` (module `HaldaneLaw`): the rate law defined once, as the
  functions `Rate` and `Diff` over `real`, and the lemmas about it: bounds, the
  behaviour near S = 0, the derivative by the quotient rule and its agreement
  with the difference quotient, the sign of the derivative, and the peak.
- `haldane_kinetic.dfy` (module `Kinetic`): the class `HaldaneKinetic` with the
  fields `Ks`, `Ki` (of type `Option<real>`: `None` is the unset boxed `Double`)
  and `nParam`. It has both constructors, `Init`, `InitFromAgent` on an
  `array<real>`, and both storage modes of the rate and of the derivative. Each
  is specified by `Rate` or `Diff`. The pure one-line evaluations are functions
  with `reads` clauses. The array-mode derivative builds its numerator and
  denominator step by step, so it is a method.

Arithmetic is over Dafny's exact `real`, an idealisation of Java `Double`. The
division-by-zero cases are excluded by the precondition `Defined(Ks, Ki, S)`:
`Ki != 0` and `Ks + S + S^2/Ki != 0`. The physical range, `Ks > 0`, `Ki > 0` and
`S >= 0` (`Physical`), implies it (`DenominatorBound`).

The array-mode evaluations `KineticValueAt` and `KineticDiffAt` have no
`modifies` clause and do not read `this`. Dafny's frame rules therefore
guarantee that they leave the parameter array and the object unchanged.

## Model

| member | source | states |
|---|---|---|
| HaldaneLaw.Rate | simulator/reaction/kinetic/HaldaneKinetic.java:116-119 | the rate is the number that, multiplied by the denominator Ks + S + S^2/Ki, gives S |
| HaldaneLaw.Diff | simulator/reaction/kinetic/HaldaneKinetic.java:130-133 | the derivative times the squared denominator is Ks - S^2/Ki |
| HaldaneLaw.DenominatorBound | simulator/reaction/kinetic/HaldaneKinetic.java:118 | for Ks > 0, Ki > 0, S >= 0 the denominator is at least Ks + S, so no division by zero occurs |
| HaldaneLaw.RateAtZero | simulator/reaction/kinetic/HaldaneKinetic.java:118 | the rate at S = 0 is 0 |
| HaldaneLaw.RateBounds | simulator/reaction/kinetic/HaldaneKinetic.java:118 | for physical inputs 0 <= rate < 1, and the rate never exceeds the uninhibited factor S/(Ks + S) |
| HaldaneLaw.RateLinearNearZero | simulator/reaction/kinetic/HaldaneKinetic.java:118 | for S > 0, 0 <= 1/Ks - rate(S)/S <= S(1 + S/Ki)/Ks^2, so rate(S)/S tends to 1/Ks as S tends to 0 |
| HaldaneLaw.DiffIsQuotientRule | simulator/reaction/kinetic/HaldaneKinetic.java:130-133 | the closed form equals the quotient rule (1·D - S·(1 + 2S/Ki))/D^2 applied to S/D |
| HaldaneLaw.DiffIsSecantLimit | simulator/reaction/kinetic/HaldaneKinetic.java:130-133 | for h != 0 the difference quotient (rate(S+h) - rate(S))/h equals a rational function of h whose value at h = 0 is the closed-form derivative |
| HaldaneLaw.DiffSign | simulator/reaction/kinetic/HaldaneKinetic.java:130-133 | for Ki > 0 the derivative is positive iff S^2 < Ks·Ki, zero iff S^2 = Ks·Ki, negative iff S^2 > Ks·Ki |
| HaldaneLaw.RatePeak | simulator/reaction/kinetic/HaldaneKinetic.java:116-119 | where S^2 = Ks·Ki the rate is at least the rate at any other concentration T >= 0 |
| HaldaneLaw.WorkedExample | simulator/reaction/kinetic/HaldaneKinetic.java:116-133 | Ks = 2, Ki = 50, S = 5 gives rate 2/3 and derivative 2/75 |
| Kinetic.HaldaneKinetic.Default | simulator/reaction/kinetic/HaldaneKinetic.java:45-48 | the generic constructor declares nParam = 2 and leaves Ks and Ki unset |
| Kinetic.HaldaneKinetic.constructor | simulator/reaction/kinetic/HaldaneKinetic.java:56-61 | stores Ks and Ki unchanged and declares nParam = 2 |
| Kinetic.HaldaneKinetic.Init | simulator/reaction/kinetic/HaldaneKinetic.java:71-76 | sets both instance parameters to the configured values and nParam = 2 |
| Kinetic.HaldaneKinetic.InitFromAgent | simulator/reaction/kinetic/HaldaneKinetic.java:86-90 | the new array is the old one with Ks at paramIndex and Ki at paramIndex + 1; every slot outside those nParam contiguous slots is unchanged, and so is the object |
| Kinetic.HaldaneKinetic.KineticValueAt | simulator/reaction/kinetic/HaldaneKinetic.java:103-106 | the array-mode value is Rate of the two table slots; it reads only the table |
| Kinetic.HaldaneKinetic.KineticValue | simulator/reaction/kinetic/HaldaneKinetic.java:116-119 | the instance-mode value is Rate of the fields |
| Kinetic.HaldaneKinetic.KineticDiff | simulator/reaction/kinetic/HaldaneKinetic.java:130-133 | the instance-mode derivative is Diff of the fields |
| Kinetic.HaldaneKinetic.KineticDiffAt | simulator/reaction/kinetic/HaldaneKinetic.java:146-153 | the step-by-step numerator and denominator give exactly Diff of the two table slots; the table is not modified |
| Kinetic.StorageModesAgree | simulator/reaction/kinetic/HaldaneKinetic.java:103-133 | a table holding the factor's own Ks and Ki gives the same rate and derivative as the fields |
| Kinetic.ConfigureBothModes | simulator/reaction/kinetic/HaldaneKinetic.java:71-153 | after init and initFromAgent with the same (Ks, Ki), both value overloads return Rate and both derivative overloads return Diff |
| Kinetic.WorkedExampleFactor | simulator/reaction/kinetic/HaldaneKinetic.java:56-133 | a factor built with (2, 50) evaluates at S = 5 to rate 2/3 and derivative 2/75 |

## Left out

- XML configuration: `init` and `initFromAgent` read `Ks` and `Ki` through `XMLParser.getParamDbl` on a jdom `Element`, and store whatever it returns. The model takes two reals instead, so a missing or non-numeric value is not represented. `XMLParser` is not part of this model.
- Floating point: NaN, infinities and rounding are not modelled. `Ki = 0` or a zero denominator is excluded by the precondition `Defined`, where Java would return an infinity or NaN.
- Null parameters: a `null` `Double` makes Java throw a `NullPointerException`; the model excludes every such case, by precondition or by type, instead of modelling the exception. This covers the fields left unset by the no-argument constructor (the instance-mode evaluations require `Ready()`), a `null` passed to the two-argument constructor (its parameters are `real`, so it cannot be expressed), and `null` slots of the `Double[]` table read by `kineticValue` and `kineticDiff` (the table is an `array<real>`).
- Kinetic.HaldaneKinetic.InitFromAgent, Kinetic.HaldaneKinetic.KineticValueAt and Kinetic.HaldaneKinetic.KineticDiffAt: the requires `0 <= index && index + 1 < Length` excludes Java's `ArrayIndexOutOfBoundsException`. In particular, when `paramIndex + 1` equals the array length, `initFromAgent` stores `Ks` at `paramIndex` and then throws on the `Ki` store, leaving a partial write visible to the caller; the model does not represent that partial write.
- The superclass `IsKineticFactor`, where `nParam` is declared, and its other variants are not part of this model. The serialisation constant `serialVersionUID` is also left out.
- The reaction solver that composes factors and calls them is left out.
- HaldaneLaw.DiffIsSecantLimit: states the derivative algebraically. The difference quotient is shown equal to a rational function of h that takes the value `Diff` at h = 0. The continuity of that function at h = 0, and so the limit itself, is not formalised.
- HaldaneLaw.RateLinearNearZero: gives an explicit error bound that vanishes as S tends to 0, not an epsilon-delta limit statement.

Facts about the code that the model keeps:

- `initFromAgent` writes two slots of the caller's array; it is the only operation that changes the array.
- Each of the four evaluation methods writes out the formula itself. The model proves all four equal `Rate` or `Diff`.
