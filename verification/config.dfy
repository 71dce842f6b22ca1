/** The checks of the task configuration: the key aliases, the validation of
    how each autoignition condition defines its mixture, the checks that
    every species named exists in the mechanism, and the rewriting of the
    raw input before validation.

    Field validation by pydantic itself (types, bounds, defaults) is not
    modelled; a dictionary of amounts is a sequence of (name, amount) pairs
    in insertion order. */
module Config {
  import opened Wrappers

  // ---------------------------------------------------------------------
  // Aliases

  /** The key a field is read from: private names (leading "_") as they
      are, every other name with each "_" written as "-". */
  function Alias(name: string): (r: string)
    ensures |r| == |name|
    ensures |name| > 0 && name[0] == '_' ==> r == name
    ensures !(|name| > 0 && name[0] == '_') ==>
              forall i :: 0 <= i < |name| ==> r[i] == (if name[i] == '_' then '-' else name[i])
  {
    if |name| > 0 && name[0] == '_' then name
    else seq(|name|, i requires 0 <= i < |name| => if name[i] == '_' then '-' else name[i])
  }

  /** The field name an alias stands for, for names without "-". */
  function Unalias(key: string): (r: string)
    ensures |r| == |key|
  {
    seq(|key|, i requires 0 <= i < |key| => if key[i] == '-' then '_' else key[i])
  }

  /** A public field name with no "-" in it is recovered from its alias,
      and no public alias holds a "_". */
  lemma AliasRoundTrip(name: string)
    requires !(|name| > 0 && name[0] == '_') && '-' !in name
    ensures Unalias(Alias(name)) == name
    ensures '_' !in Alias(name)
  {
    var a := Alias(name);
    forall i | 0 <= i < |name|
      ensures Unalias(a)[i] == name[i]
    {
      assert name[i] != '-' by { assert name[i] in name; }
    }
    forall i | 0 <= i < |a|
      ensures a[i] != '_'
    {
    }
  }

  /** Aliasing an alias changes nothing. */
  lemma AliasIdempotent(name: string)
    ensures Alias(Alias(name)) == Alias(name)
  {
    var a := Alias(name);
    if !(|name| > 0 && name[0] == '_') {
      assert !(|a| > 0 && a[0] == '_');
    }
  }

  // ---------------------------------------------------------------------
  // Mixture definitions

  /** A dictionary of amounts, in insertion order. */
  type Amounts = seq<(string, real)>

  /** The name of the first entry with a negative amount, if any. */
  function FirstNegative(d: Amounts): (r: Option<string>)
    ensures r.None? <==> forall i :: 0 <= i < |d| ==> d[i].1 >= 0.0
    ensures r.Some? ==> exists i :: 0 <= i < |d| && d[i].0 == r.value && d[i].1 < 0.0
                          && forall j :: 0 <= j < i ==> d[j].1 >= 0.0
  {
    if |d| == 0 then None
    else if d[0].1 < 0.0 then Some(d[0].0)
    else
      var r := FirstNegative(d[1..]);
      assert forall i :: 1 <= i < |d| ==> d[i] == d[1..][i - 1];
      r
  }

  /** Python's truth value of an optional dictionary. */
  predicate Filled(d: Option<Amounts>) {
    d.Some? && |d.value| > 0
  }

  /** How an autoignition condition defines its mixture. */
  datatype Mixture = Mixture(
    reactants: Option<Amounts>,
    fuel: Option<Amounts>,
    oxidizer: Option<Amounts>,
    equivalenceRatio: Option<real>)

  /** Why a mixture definition is refused (each a `ValueError`). */
  datatype MixtureError =
    | NoFuelOrOxidizer
    | NegativeFuel(fuel: string)
    | NegativeOxidizer(oxidizer: string)
    | ReactantsWithRatio
    | NoReactants
    | NegativeReactant(reactant: string)

  /** A nonzero equivalence ratio is set. */
  predicate ByRatio(m: Mixture) {
    m.equivalenceRatio.Some? && m.equivalenceRatio.value != 0.0
  }

  /** No amount in `d` is negative. */
  predicate NoneNegative(d: Amounts) {
    forall i :: 0 <= i < |d| ==> d[i].1 >= 0.0
  }

  /** `validate_species_definitions`: with an equivalence ratio, fuel and
      oxidizer are both needed, with no negative amount, and no reactants;
      without one, reactants are needed, with no negative amount. */
  function ValidateMixture(m: Mixture): (r: Option<MixtureError>)
    ensures ByRatio(m) ==>
              (r.None? <==> Filled(m.fuel) && Filled(m.oxidizer)
                            && NoneNegative(m.fuel.value) && NoneNegative(m.oxidizer.value)
                            && !Filled(m.reactants))
    ensures !ByRatio(m) ==> (r.None? <==> Filled(m.reactants) && NoneNegative(m.reactants.value))
    ensures r == Some(NoFuelOrOxidizer) <==> ByRatio(m) && !(Filled(m.fuel) && Filled(m.oxidizer))
    ensures r == Some(NoReactants) <==> !ByRatio(m) && !Filled(m.reactants)
    ensures r.Some? && r.value.NegativeReactant? ==>
              Filled(m.reactants) && FirstNegative(m.reactants.value) == Some(r.value.reactant)
  {
    if ByRatio(m) then
      if !(Filled(m.fuel) && Filled(m.oxidizer)) then Some(NoFuelOrOxidizer)
      else if FirstNegative(m.fuel.value).Some? then Some(NegativeFuel(FirstNegative(m.fuel.value).value))
      else if FirstNegative(m.oxidizer.value).Some? then Some(NegativeOxidizer(FirstNegative(m.oxidizer.value).value))
      else if Filled(m.reactants) then Some(ReactantsWithRatio)
      else None
    else if !Filled(m.reactants) then Some(NoReactants)
    else if FirstNegative(m.reactants.value).Some? then Some(NegativeReactant(FirstNegative(m.reactants.value).value))
    else None
  }

  // ---------------------------------------------------------------------
  // Species existence

  /** The first name not among `species`, if any. */
  function FirstMissing(names: seq<string>, species: set<string>): (r: Option<string>)
    ensures r.None? <==> forall i :: 0 <= i < |names| ==> names[i] in species
    ensures r.Some? ==> r.value in names && r.value !in species
  {
    if |names| == 0 then None
    else if names[0] !in species then Some(names[0])
    else
      var r := FirstMissing(names[1..], species);
      assert forall i :: 1 <= i < |names| ==> names[i] == names[1..][i - 1];
      r
  }

  /** The names of a dictionary, in order; none for a missing or empty one. */
  function Names(d: Option<Amounts>): (r: seq<string>)
    ensures |r| == (if d.Some? then |d.value| else 0)
  {
    if d.None? then [] else seq(|d.value|, i requires 0 <= i < |d.value| => d.value[i].0)
  }

  /** Why a name is refused.  The message for a missing oxidizer calls it a
      reactant, so it is reported as one. */
  datatype MissingSpecies =
    | NoSuchReactant(name: string, condition: nat)
    | NoSuchFuel(name: string, condition: nat)
    | NoSuchSpecy(name: string)

  /** Every name of the dictionary is a species. */
  predicate AllKnown(d: Option<Amounts>, species: set<string>) {
    forall i :: 0 <= i < |Names(d)| ==> Names(d)[i] in species
  }

  /** `check_all_reactants_exist` for condition `idx`: reactants, then fuel,
      then oxidizer. */
  function CheckReactants(m: Mixture, species: set<string>, idx: nat): (r: Option<MissingSpecies>)
    ensures r.None? <==> AllKnown(m.reactants, species) && AllKnown(m.fuel, species) && AllKnown(m.oxidizer, species)
    ensures r.Some? ==> r.value.name !in species && !r.value.NoSuchSpecy? && r.value.condition == idx
  {
    match FirstMissing(Names(m.reactants), species)
    case Some(n) => Some(NoSuchReactant(n, idx))
    case None =>
      match FirstMissing(Names(m.fuel), species)
      case Some(n) => Some(NoSuchFuel(n, idx))
      case None =>
        match FirstMissing(Names(m.oxidizer), species)
        case Some(n) => Some(NoSuchReactant(n, idx))
        case None => None
  }

  /** The conditions from index `k` on, in order. */
  function CheckConditions(conditions: seq<Mixture>, species: set<string>, k: nat): (r: Option<MissingSpecies>)
    requires k <= |conditions|
    decreases |conditions| - k
    ensures r.None? <==> forall i :: k <= i < |conditions| ==> CheckReactants(conditions[i], species, i).None?
    ensures r.Some? ==> r.value.name !in species && !r.value.NoSuchSpecy? && k <= r.value.condition < |conditions|
  {
    if k == |conditions| then None
    else
      match CheckReactants(conditions[k], species, k)
      case Some(e) => Some(e)
      case None => CheckConditions(conditions, species, k + 1)
  }

  /** `check_all_species_exist`: the target and retained species first,
      then every condition's mixture. */
  function CheckSpecies(target: seq<string>, retained: seq<string>, conditions: seq<Mixture>, species: set<string>): (r: Option<MissingSpecies>)
    ensures r.None? <==>
              && (forall i :: 0 <= i < |target| ==> target[i] in species)
              && (forall i :: 0 <= i < |retained| ==> retained[i] in species)
              && (forall i :: 0 <= i < |conditions| ==> CheckReactants(conditions[i], species, i).None?)
    ensures r.Some? ==> r.value.name !in species
    ensures r.Some? && r.value.NoSuchSpecy? ==> r.value.name in target + retained
  {
    match FirstMissing(target + retained, species)
    case Some(n) => Some(NoSuchSpecy(n))
    case None =>
      assert forall i :: 0 <= i < |target| ==> target[i] == (target + retained)[i];
      assert forall i :: 0 <= i < |retained| ==> retained[i] == (target + retained)[|target| + i];
      CheckConditions(conditions, species, 0)
  }

  // ---------------------------------------------------------------------
  // Rewriting the raw input

  /** A raw input value. */
  datatype Raw = Number(number: real) | Text(text: string) | Flag(flag: bool) | OtherValue

  /** The raw input: a dictionary, or anything else (left alone). */
  datatype Input = Dict(entries: map<string, Raw>) | NotADict

  /** `float(x)` for the values it accepts; `parse` stands for the parsing
      of strings. */
  function ToFloat(x: Raw, parse: string -> Option<real>): Option<real> {
    match x
    case Number(v) => Some(v)
    case Text(t) => parse(t)
    case Flag(b) => Some(if b then 1.0 else 0.0)
    case OtherValue => None
  }

  /** `recalc_max_error`: a "max-error" given in percent becomes a fraction;
      a value `float` refuses is left for validation to report. */
  function RecalcMaxError(data: Input, parse: string -> Option<real>): (r: Input)
    ensures data.NotADict? ==> r == data
    ensures data.Dict? ==> r.Dict? && r.entries.Keys == data.entries.Keys
    ensures data.Dict? ==> forall k :: k in data.entries && k != "max-error" ==> r.entries[k] == data.entries[k]
    ensures data.Dict? && "max-error" in data.entries && ToFloat(data.entries["max-error"], parse).Some? ==>
              && r.entries["max-error"].Number?
              && r.entries["max-error"].number * 100.0 == ToFloat(data.entries["max-error"], parse).value
    ensures data.Dict? && "max-error" in data.entries && ToFloat(data.entries["max-error"], parse).None? ==>
              r == data
  {
    if data.Dict? && "max-error" in data.entries then
      match ToFloat(data.entries["max-error"], parse)
      case Some(v) => Dict(data.entries["max-error" := Number(v / 100.0)])
      case None => data
    else data
  }

  /** A maximum error given as 5 (percent) is read as 0.05. */
  lemma PercentBecomesFraction(data: map<string, Raw>, parse: string -> Option<real>)
    requires "max-error" in data && data["max-error"] == Number(5.0)
    ensures RecalcMaxError(Dict(data), parse).entries["max-error"] == Number(0.05)
  {
  }

  /** The field's own constraint on "max-error": a number strictly between
      0 and 1. */
  predicate MaxErrorInRange(x: Raw) {
    x.Number? && 0.0 < x.number < 1.0
  }

  /** After the rescaling, a maximum error that reads as a number passes the
      field's bounds exactly when the user's percentage lies strictly
      between 0 and 100. */
  lemma MaxErrorPercentRange(data: map<string, Raw>, parse: string -> Option<real>)
    requires "max-error" in data && ToFloat(data["max-error"], parse).Some?
    ensures var v := ToFloat(data["max-error"], parse).value;
            MaxErrorInRange(RecalcMaxError(Dict(data), parse).entries["max-error"]) <==> 0.0 < v < 100.0
  {
    var x := RecalcMaxError(Dict(data), parse).entries["max-error"];
    assert x.number * 100.0 == ToFloat(data["max-error"], parse).value;
  }

  /** The key the private flag is written under. */
  const SetByUserKey: string := "_initial_threshold_set_by_user"

  /** `checkinitial_threshold_set_by_user`: the flag is written exactly when
      the user gave "initial-threshold". */
  function MarkThresholdSetByUser(data: Input): (r: Input)
    ensures data.NotADict? ==> r == data
    ensures data.Dict? ==> r.Dict? && (forall k :: k in data.entries && k != SetByUserKey ==> k in r.entries && r.entries[k] == data.entries[k])
    ensures data.Dict? ==> ((SetByUserKey in r.entries && r.entries[SetByUserKey] == Flag(true)) <==>
                             "initial-threshold" in data.entries
                             || (SetByUserKey in data.entries && data.entries[SetByUserKey] == Flag(true)))
  {
    if data.Dict? && "initial-threshold" in data.entries then Dict(data.entries[SetByUserKey := Flag(true)])
    else data
  }

  // ---------------------------------------------------------------------
  // Thread counts

  /** `calc_num_threads`: a missing thread count defaults to one less than
      the number of CPUs when there are several, and a missing count of
      matrix-building processes to the thread count. */
  function CalcNumThreads(numThreads: Option<int>, creating: Option<int>, cpus: nat): (r: (int, int))
    ensures numThreads.Some? ==> r.0 == numThreads.value
    ensures numThreads.None? ==> r.0 == (if cpus > 1 then cpus - 1 else cpus)
    ensures creating.Some? ==> r.1 == creating.value
    ensures creating.None? ==> r.1 == r.0
  {
    var n := if numThreads.Some? then numThreads.value else if cpus > 1 then cpus - 1 else cpus;
    (n, if creating.Some? then creating.value else n)
  }

  /** With any CPU at all, the default thread count leaves one CPU free
      when there is more than one, and is at least 1. */
  lemma DefaultThreadsPositive(cpus: nat)
    requires cpus >= 1
    ensures var r := CalcNumThreads(None, None, cpus);
            1 <= r.0 <= cpus && r.1 == r.0 && (cpus > 1 ==> r.0 < cpus)
  {
  }
}
