/** The Haldane kinetic factor object. Its two parameters, the half-saturation
    concentration Ks and the inhibition concentration Ki, live either in the
    object's own fields or, for per-agent parameters, in a caller-owned array at
    a caller-supplied offset (Ks at the offset, Ki just after it). Every
    evaluation, in either storage mode, is specified by HaldaneLaw.Rate and
    HaldaneLaw.Diff. */
module Kinetic {
  import opened RealArith
  import opened HaldaneLaw

  /** A boxed parameter that may still be unset (a null Double). */
  datatype Option<T> = None | Some(value: T)

  class HaldaneKinetic {
    /** Half-saturation concentration of the solute; None until set. */
    var Ks: Option<real>
    /** Inhibition concentration of the solute; None until set. */
    var Ki: Option<real>
    /** Number of parameters the factor reads from, or writes to, a parameter array. */
    var nParam: int

    /** Every way of building or initialising the factor declares two parameters. */
    ghost predicate Valid()
      reads this
    {
      nParam == 2
    }

    /** Both instance parameters are set, so the instance-mode evaluations can run. */
    predicate Ready()
      reads this
    {
      Ks.Some? && Ki.Some?
    }

    /** The generic constructor: parameters stay unset until Init. */
    constructor Default()
      ensures Valid()
      ensures Ks == None && Ki == None
    {
      Ks := None;
      Ki := None;
      nParam := 2;
    }

    /** Stores the supplied parameters unchanged. */
    constructor (ks: real, ki: real)
      ensures Valid() && Ready()
      ensures Ks == Some(ks) && Ki == Some(ki)
    {
      Ks := Some(ks);
      Ki := Some(ki);
      nParam := 2;
    }

    /** Sets the instance parameters from already-parsed configuration values. */
    method Init(ks: real, ki: real)
      modifies this
      ensures Valid() && Ready()
      ensures Ks == Some(ks) && Ki == Some(ki)
    {
      Ks := Some(ks);
      Ki := Some(ki);
      nParam := 2;
    }

    /** Writes an agent's parameters into the caller's array: Ks at paramIndex,
        Ki at paramIndex + 1, and nothing else, neither in the array nor in
        this object. */
    method InitFromAgent(ks: real, ki: real, kineticParam: array<real>, paramIndex: int)
      requires Valid()
      requires 0 <= paramIndex && paramIndex + 1 < kineticParam.Length
      modifies kineticParam
      ensures kineticParam[..] == old(kineticParam[..])[paramIndex := ks][paramIndex + 1 := ki]
      ensures forall j :: 0 <= j < kineticParam.Length && !(paramIndex <= j < paramIndex + nParam)
                ==> kineticParam[j] == old(kineticParam[j])
      ensures unchanged(this)
    {
      kineticParam[paramIndex] := ks;
      kineticParam[paramIndex + 1] := ki;
    }

    /** The rate for the parameters stored in paramTable at index; reads only
        those two slots and nothing of this object. */
    function KineticValueAt(solute: real, paramTable: array<real>, index: int): (r: real)
      reads paramTable
      requires 0 <= index && index + 1 < paramTable.Length
      requires Defined(paramTable[index], paramTable[index + 1], solute)
      ensures r == Rate(paramTable[index], paramTable[index + 1], solute)
    {
      solute / (paramTable[index] + solute + solute * solute / paramTable[index + 1])
    }

    /** The rate for the instance parameters. */
    function KineticValue(solute: real): (r: real)
      reads this
      requires Ready() && Defined(Ks.value, Ki.value, solute)
      ensures r == Rate(Ks.value, Ki.value, solute)
    {
      solute / (Ks.value + solute + solute * solute / Ki.value)
    }

    /** The derivative of the rate for the instance parameters. */
    function KineticDiff(solute: real): (d: real)
      reads this
      requires Ready() && Defined(Ks.value, Ki.value, solute)
      ensures d == Diff(Ks.value, Ki.value, solute)
    {
      SqPositive(Ks.value + solute + solute * solute / Ki.value);
      (Ks.value - Sq(solute) / Ki.value) / Sq(Ks.value + solute + solute * solute / Ki.value)
    }

    /** The derivative of the rate for the parameters stored in paramTable at
        index, built up term by term; the array is only read. */
    method KineticDiffAt(solute: real, paramTable: array<real>, index: int) returns (d: real)
      requires 0 <= index && index + 1 < paramTable.Length
      requires Defined(paramTable[index], paramTable[index + 1], solute)
      ensures d == Diff(paramTable[index], paramTable[index + 1], solute)
    {
      var numerator := paramTable[index];
      numerator := numerator - Sq(solute) / paramTable[index + 1];
      var denominator := paramTable[index] + solute;
      denominator := denominator + Sq(solute) / paramTable[index + 1];
      SqPositive(denominator);
      d := numerator / Sq(denominator);
    }
  }

  /** The two storage modes agree: an array holding the factor's own Ks and Ki
      at index gives the same rate and the same derivative as its fields. */
  lemma StorageModesAgree(k: HaldaneKinetic, solute: real, paramTable: array<real>, index: int)
    requires k.Ready() && 0 <= index && index + 1 < paramTable.Length
    requires paramTable[index] == k.Ks.value && paramTable[index + 1] == k.Ki.value
    requires Defined(k.Ks.value, k.Ki.value, solute)
    ensures k.KineticValueAt(solute, paramTable, index) == k.KineticValue(solute)
    ensures Diff(paramTable[index], paramTable[index + 1], solute) == k.KineticDiff(solute)
  {
  }

  /** Configuring one factor with (Ks, Ki) and writing the same pair into an
      agent's slots make both storage modes give the same rate and derivative. */
  method ConfigureBothModes(ks: real, ki: real, solute: real, kineticParam: array<real>, paramIndex: int)
    returns (instanceValue: real, tableValue: real, instanceDiff: real, tableDiff: real)
    requires 0 <= paramIndex && paramIndex + 1 < kineticParam.Length
    requires Defined(ks, ki, solute)
    modifies kineticParam
    ensures instanceValue == tableValue == Rate(ks, ki, solute)
    ensures instanceDiff == tableDiff == Diff(ks, ki, solute)
  {
    var factor := new HaldaneKinetic.Default();
    factor.Init(ks, ki);
    factor.InitFromAgent(ks, ki, kineticParam, paramIndex);
    instanceValue := factor.KineticValue(solute);
    tableValue := factor.KineticValueAt(solute, kineticParam, paramIndex);
    instanceDiff := factor.KineticDiff(solute);
    tableDiff := factor.KineticDiffAt(solute, kineticParam, paramIndex);
  }

  /** A factor built with Ks = 2 and Ki = 50 gives, at S = 5, rate 2/3 and
      derivative 2/75. */
  method WorkedExampleFactor() returns (value: real, slope: real)
    ensures value == 2.0 / 3.0 && slope == 2.0 / 75.0
  {
    var factor := new HaldaneKinetic(2.0, 50.0);
    WorkedExample();
    value := factor.KineticValue(5.0);
    slope := factor.KineticDiff(5.0);
  }
}
