/** Cargo containers: liquid, gas and refrigerated containers with their
    loading and unloading rules, the refrigerated product table, and serial
    numbers drawn from a shared counter. Masses are kilograms as `real`. */
module Containers {
  import opened Outcome

  const HazardousLiquidShare: real := 0.5
  const LiquidShare: real := 0.9
  const GasResidueShare: real := 0.05

  datatype Kind =
    | Liquid(hazardous: bool)
    | Gas(pressure: real, hazardous: bool)
    | Cooling(productType: string, temperature: real)

  datatype Container = Container(serial: string, kind: Kind, height: real, weight: real, depth: real, maxCapacity: real, cargoMass: real)

  datatype Product = Product(productType: string, weight: real)

  datatype CargoError = Overfill | WrongProductType | InvalidTemperature

  /** The letter naming a kind in serial numbers. */
  function TypeCode(k: Kind): string {
    match k
    case Liquid(_) => "L"
    case Gas(_, _) => "G"
    case Cooling(_, _) => "C"
  }

  function DigitChar(d: nat): (r: char)
    requires d < 10
    ensures '0' <= r <= '9'
  {
    ('0' as int + d) as char
  }

  /** Decimal digits of `n`, most significant first. */
  function NatToString(n: nat): (r: string)
    ensures |r| > 0
    ensures forall k :: 0 <= k < |r| ==> '0' <= r[k] <= '9'
    ensures n >= 10 ==> |r| >= 2
  {
    if n < 10 then [DigitChar(n)] else NatToString(n / 10) + [DigitChar(n % 10)]
  }

  lemma {:induction false} NatToStringInjective(a: nat, b: nat)
    requires NatToString(a) == NatToString(b)
    ensures a == b
  {
    var sa, sb := NatToString(a), NatToString(b);
    if a < 10 && b < 10 {
      assert DigitChar(a) == sa[0] == sb[0] == DigitChar(b);
    } else if a >= 10 && b >= 10 {
      assert sa[|sa| - 1] == sb[|sb| - 1];
      assert DigitChar(a % 10) == DigitChar(b % 10);
      assert a % 10 == b % 10;
      assert sa[..|sa| - 1] == NatToString(a / 10);
      assert sb[..|sb| - 1] == NatToString(b / 10);
      NatToStringInjective(a / 10, b / 10);
    }
  }

  /** `KON-{type}-{n}`. */
  function Serial(k: Kind, n: nat): (r: string)
    ensures |r| >= 7 && r[..4] == "KON-" && r[5] == '-' && r[6..] == NatToString(n)
  {
    "KON-" + TypeCode(k) + "-" + NatToString(n)
  }

  /** Serial numbers drawn from different counter values differ, whatever
      the kinds. */
  lemma SerialsDistinct(k1: Kind, n1: nat, k2: Kind, n2: nat)
    requires n1 != n2
    ensures Serial(k1, n1) != Serial(k2, n2)
  {
    if Serial(k1, n1) == Serial(k2, n2) {
      NatToStringInjective(n1, n2);
    }
  }

  /** Lowest admissible temperature for each product type the table knows. */
  function MinTemperature(productType: string): (r: Option<real>)
    ensures r.Some? <==> productType in {"Bananas", "Chocolate", "Fish", "Meat", "Ice cream", "Frozen pizza", "Cheese", "Sausages", "Butter", "Eggs"}
  {
    match productType
    case "Bananas" => Some(13.3)
    case "Chocolate" => Some(18.0)
    case "Fish" => Some(2.0)
    case "Meat" => Some(-15.0)
    case "Ice cream" => Some(-18.0)
    case "Frozen pizza" => Some(-30.0)
    case "Cheese" => Some(7.2)
    case "Sausages" => Some(5.0)
    case "Butter" => Some(20.5)
    case "Eggs" => Some(19.0)
    case _ => None
  }

  predicate IsTemperatureValid(productType: string, temperature: real) {
    MinTemperature(productType).Some? && temperature >= MinTemperature(productType).value
  }

  /** A temperature that suits a product type still suits it when warmer. */
  lemma TemperatureValidityMonotone(productType: string, t: real, t': real)
    requires IsTemperatureValid(productType, t) && t <= t'
    ensures IsTemperatureValid(productType, t')
  {
  }

  datatype ContainerSpec = ContainerSpec(kind: Kind, height: real, weight: real, depth: real, maxCapacity: real)

  /** Construction: the serial takes the counter's value and the counter
      advances even when a refrigerated container is then rejected for its
      temperature. Returns the next counter value. */
  function Construct(counter: nat, spec: ContainerSpec): (r: (nat, Result<Container, CargoError>))
    ensures r.0 == counter + 1
    ensures r.1.Err? <==> spec.kind.Cooling? && !IsTemperatureValid(spec.kind.productType, spec.kind.temperature)
    ensures r.1.Err? ==> r.1.error == InvalidTemperature
    ensures r.1.Ok? ==> r.1.value.serial == Serial(spec.kind, counter) && r.1.value.cargoMass == 0.0
                        && r.1.value.kind == spec.kind && r.1.value.maxCapacity == spec.maxCapacity && r.1.value.weight == spec.weight
  {
    var c := Container(Serial(spec.kind, counter), spec.kind, spec.height, spec.weight, spec.depth, spec.maxCapacity, 0.0);
    if spec.kind.Cooling? && !IsTemperatureValid(spec.kind.productType, spec.kind.temperature) then (counter + 1, Err(InvalidTemperature))
    else (counter + 1, Ok(c))
  }

  /** Constructs containers in order, threading the counter. */
  function ConstructAll(counter: nat, specs: seq<ContainerSpec>): (r: (nat, seq<Result<Container, CargoError>>))
    ensures r.0 == counter + |specs| && |r.1| == |specs|
    ensures forall k :: 0 <= k < |specs| ==> r.1[k] == Construct(counter + k, specs[k]).1
    decreases |specs|
  {
    if |specs| == 0 then (counter, [])
    else
      var first := Construct(counter, specs[0]).1;
      var tail := ConstructAll(counter + 1, specs[1..]);
      ConsConstructed(counter, specs, tail.1);
      (tail.0, [first] + tail.1)
  }

  /** Building the first container in front of the rest keeps every
      container at the counter value of its position. */
  lemma ConsConstructed(counter: nat, specs: seq<ContainerSpec>, tail: seq<Result<Container, CargoError>>)
    requires |specs| > 0 && |tail| == |specs| - 1
    requires forall k :: 0 <= k < |specs[1..]| ==> tail[k] == Construct(counter + 1 + k, specs[1..][k]).1
    ensures forall k :: 0 <= k < |specs| ==> ([Construct(counter, specs[0]).1] + tail)[k] == Construct(counter + k, specs[k]).1
  {
    var built := [Construct(counter, specs[0]).1] + tail;
    forall k | 1 <= k < |specs|
      ensures built[k] == Construct(counter + k, specs[k]).1
    {
      assert specs[k] == specs[1..][k - 1] && built[k] == tail[k - 1];
    }
  }

  /** Every container built from one counter has its own serial number. */
  lemma ConstructedSerialsDistinct(counter: nat, specs: seq<ContainerSpec>, i: int, j: int)
    requires 0 <= i < j < |specs|
    requires ConstructAll(counter, specs).1[i].Ok? && ConstructAll(counter, specs).1[j].Ok?
    ensures ConstructAll(counter, specs).1[i].value.serial != ConstructAll(counter, specs).1[j].value.serial
  {
    SerialsDistinct(specs[i].kind, counter + i, specs[j].kind, counter + j);
  }

  /** The rule shared by gas containers and the base class: reject when the
      total would exceed the capacity. */
  function LoadWithinCapacity(c: Container, p: Product): (r: Result<Container, CargoError>)
    ensures r.Err? <==> c.cargoMass + p.weight > c.maxCapacity
    ensures r.Err? ==> r.error == Overfill
    ensures r.Ok? ==> r.value == c.(cargoMass := c.cargoMass + p.weight)
  {
    if c.cargoMass + p.weight > c.maxCapacity then Err(Overfill) else Ok(c.(cargoMass := c.cargoMass + p.weight))
  }

  /** The fill limit of a liquid container. */
  function LiquidLimit(c: Container): real
    requires c.kind.Liquid?
  {
    if c.kind.hazardous then c.maxCapacity * HazardousLiquidShare else c.maxCapacity * LiquidShare
  }

  /** Liquid loading as written: only the product's own weight is compared
      with the limit. */
  function LoadLiquidAsWritten(c: Container, p: Product): (r: Result<Container, CargoError>)
    requires c.kind.Liquid?
    ensures r.Err? <==> p.weight > LiquidLimit(c)
    ensures r.Err? ==> r.error == Overfill
    ensures r.Ok? ==> r.value == c.(cargoMass := c.cargoMass + p.weight)
  {
    if p.weight > LiquidLimit(c) then Err(Overfill) else Ok(c.(cargoMass := c.cargoMass + p.weight))
  }

  /** Two 25 kg loads into an empty hazardous container of capacity 50 are
      both accepted, leaving 50 kg against a 25 kg limit. */
  lemma LiquidLimitIgnoresCargo()
    ensures var c := Container("KON-L-1", Liquid(true), 5.0, 50.0, 20.0, 50.0, 0.0);
            var p := Product("Chemicals", 25.0);
            && LoadLiquidAsWritten(c, p).Ok?
            && LoadLiquidAsWritten(LoadLiquidAsWritten(c, p).value, p).Ok?
            && LoadLiquidAsWritten(LoadLiquidAsWritten(c, p).value, p).value.cargoMass > LiquidLimit(c)
  {
  }

  /** Liquid loading as evidently intended: the total must stay within the limit. */
  function LoadLiquid(c: Container, p: Product): (r: Result<Container, CargoError>)
    requires c.kind.Liquid?
    ensures r.Err? <==> c.cargoMass + p.weight > LiquidLimit(c)
    ensures r.Err? ==> r.error == Overfill
    ensures r.Ok? ==> r.value == c.(cargoMass := c.cargoMass + p.weight)
  {
    if c.cargoMass + p.weight > LiquidLimit(c) then Err(Overfill) else Ok(c.(cargoMass := c.cargoMass + p.weight))
  }

  /** Refrigerated loading: capacity is checked before the product type. */
  function LoadCooling(c: Container, p: Product): (r: Result<Container, CargoError>)
    requires c.kind.Cooling?
    ensures c.cargoMass + p.weight > c.maxCapacity ==> r == Err(Overfill)
    ensures c.cargoMass + p.weight <= c.maxCapacity && p.productType != c.kind.productType ==> r == Err(WrongProductType)
    ensures r.Ok? <==> c.cargoMass + p.weight <= c.maxCapacity && p.productType == c.kind.productType
    ensures r.Ok? ==> r.value == c.(cargoMass := c.cargoMass + p.weight)
  {
    if p.weight + c.cargoMass > c.maxCapacity then Err(Overfill)
    else if p.productType != c.kind.productType then Err(WrongProductType)
    else Ok(c.(cargoMass := c.cargoMass + p.weight))
  }

  /** `LoadCargo` with the liquid rule as written. */
  function LoadCargoAsWritten(c: Container, p: Product): (r: Result<Container, CargoError>)
    ensures r.Ok? ==> r.value == c.(cargoMass := c.cargoMass + p.weight)
  {
    match c.kind
    case Liquid(_) => LoadLiquidAsWritten(c, p)
    case Gas(_, _) => LoadWithinCapacity(c, p)
    case Cooling(_, _) => LoadCooling(c, p)
  }

  /** `LoadCargo` with the corrected liquid rule. */
  function LoadCargo(c: Container, p: Product): (r: Result<Container, CargoError>)
    ensures r.Ok? ==> r.value == c.(cargoMass := c.cargoMass + p.weight)
    ensures !c.kind.Liquid? ==> r == LoadCargoAsWritten(c, p)
  {
    match c.kind
    case Liquid(_) => LoadLiquid(c, p)
    case Gas(_, _) => LoadWithinCapacity(c, p)
    case Cooling(_, _) => LoadCooling(c, p)
  }

  /** `UnloadCargo`: a gas container keeps 5% of its cargo, every other
      container is emptied. */
  function UnloadCargo(c: Container): (r: Container)
    ensures r == c.(cargoMass := r.cargoMass)
    ensures c.kind.Gas? ==> r.cargoMass == c.cargoMass * GasResidueShare
    ensures !c.kind.Gas? ==> r.cargoMass == 0.0
    ensures c.cargoMass >= 0.0 ==> 0.0 <= r.cargoMass <= c.cargoMass
  {
    if c.kind.Gas? then c.(cargoMass := c.cargoMass * GasResidueShare) else c.(cargoMass := 0.0)
  }

  /** The most a container may hold. */
  function Limit(c: Container): real {
    if c.kind.Liquid? then LiquidLimit(c) else c.maxCapacity
  }

  predicate WithinLimit(c: Container) {
    0.0 <= c.cargoMass <= Limit(c)
  }

  /** With the corrected liquid rule, loading products of non-negative weight
      and unloading keep every container within its limit. */
  lemma OperationsKeepWithinLimit(c: Container, p: Product)
    requires WithinLimit(c) && p.weight >= 0.0
    ensures LoadCargo(c, p).Ok? ==> WithinLimit(LoadCargo(c, p).value)
    ensures WithinLimit(UnloadCargo(c))
  {
  }

  /** The loads in the sample program behave as its comments say, except
      that an ice-cream container at 5 degrees is accepted by the table. */
  lemma SampleLoads()
    ensures LoadLiquidAsWritten(Container("KON-L-1", Liquid(true), 5.0, 50.0, 20.0, 50.0, 0.0), Product("Chemicals", 50.0)) == Err(Overfill)
    ensures LoadWithinCapacity(Container("KON-G-4", Gas(60.0, false), 5.0, 10.0, 50.0, 15.0, 0.0), Product("Oxygen", 20.0)) == Err(Overfill)
    ensures IsTemperatureValid("Bananas", 15.0) && IsTemperatureValid("Ice cream", 5.0)
    ensures LoadCooling(Container("KON-C-5", Cooling("Bananas", 15.0), 10.0, 70.0, 50.0, 200.0, 0.0), Product("Butter", 190.0)) == Err(WrongProductType)
  {
  }
}
