/**
 * The daily carbon-footprint calculator: a weighted sum of a user's
 * lifestyle choices over five emission-factor tables (kg CO2 per unit).
 * Python floats are modelled as `real`, so the sum identities are exact.
 */
module Footprint {

  /** One emission-factor table: category name to kg CO2 per unit. */
  type FactorTable = map<string, real>

  /** The five tables the calculator consults. */
  datatype EmissionTables = EmissionTables(
    transport: FactorTable,  // per km, and per public-transport trip
    car: FactorTable,        // per km, by fuel type
    energy: FactorTable,     // per kWh, by energy source
    diet: FactorTable,       // flat, by diet type
    travel: FactorTable      // flat, by flight frequency
  )

  // The tables the application ships with.
  const TransportEmissions: FactorTable :=
    map["Car" := 0.2, "Bus" := 0.1, "Bike" := 0.0, "Train" := 0.05, "Walking" := 0.0]
  const CarEmissions: FactorTable :=
    map["Electric" := 0.05, "Hybrid" := 0.12, "Gasoline" := 0.25, "Diesel" := 0.30]
  const EnergyEmissions: FactorTable :=
    map["Solar" := 0.1, "Wind" := 0.05, "Natural Gas" := 0.6, "Coal" := 1.0, "Electricity mix" := 0.5]
  const DietEmissions: FactorTable :=
    map["Meat-heavy" := 2.5, "Balanced" := 1.5, "Vegetarian" := 1.0, "Vegan" := 0.7]
  const TravelEmissions: FactorTable :=
    map["Monthly" := 3.0, "Quarterly" := 1.5, "Annually" := 0.5, "Never" := 0.0]

  const AppTables := EmissionTables(TransportEmissions, CarEmissions, EnergyEmissions, DietEmissions, TravelEmissions)

  /** The user's profile, one field per input of the form. */
  datatype Profile = Profile(
    transportKm: real,
    transportMode: string,
    secondaryTransport: string,
    carType: string,
    publicTransportFreq: int,
    energyUsage: real,
    householdSize: int,
    energySource: string,
    diet: string,
    flightFrequency: string
  )

  /** The six intermediate terms of the calculation. */
  datatype Terms = Terms(transport: real, car: real, publicTransport: real,
                         energy: real, diet: real, travel: real)

  /** The per-category breakdown returned beside the total. */
  datatype Breakdown = Breakdown(transport: real, energy: real, diet: real, travel: real)

  /** `table.get(category, 0)`: a lookup that never fails, and is 0 for an unknown category. */
  function Rate(table: FactorTable, category: string): (r: real)
    ensures category in table ==> r == table[category]
    ensures category !in table ==> r == 0.0
    ensures NonNegativeTable(table) ==> r >= 0.0
  {
    if category in table then table[category] else 0.0
  }

  ghost predicate NonNegativeTable(table: FactorTable)
  {
    forall category | category in table :: table[category] >= 0.0
  }

  ghost predicate NonNegativeTables(t: EmissionTables)
  {
    NonNegativeTable(t.transport) && NonNegativeTable(t.car) && NonNegativeTable(t.energy)
    && NonNegativeTable(t.diet) && NonNegativeTable(t.travel)
  }

  /** The inputs the form can produce: non-negative quantities, at least one person. */
  ghost predicate NonNegativeProfile(p: Profile)
  {
    p.transportKm >= 0.0 && p.publicTransportFreq >= 0 && p.energyUsage >= 0.0 && p.householdSize >= 1
  }

  /**
   * The six terms. The car term reuses the primary-transport distance, and the
   * energy term is shared out over the household; diet and travel are flat.
   */
  function TermsOf(t: EmissionTables, p: Profile): (r: Terms)
    requires p.householdSize >= 1
    ensures p.transportKm == 0.0 ==> r.transport == 0.0 && r.car == 0.0
    ensures p.transportMode !in t.transport ==> r.transport == 0.0
    ensures p.carType !in t.car ==> r.car == 0.0
    ensures p.secondaryTransport !in t.transport ==> r.publicTransport == 0.0
    ensures p.energySource !in t.energy ==> r.energy == 0.0
    ensures p.diet !in t.diet ==> r.diet == 0.0
    ensures p.flightFrequency !in t.travel ==> r.travel == 0.0
  {
    Terms(
      p.transportKm * Rate(t.transport, p.transportMode),
      Rate(t.car, p.carType) * p.transportKm,
      Rate(t.transport, p.secondaryTransport) * (p.publicTransportFreq as real),
      p.energyUsage * Rate(t.energy, p.energySource) / (p.householdSize as real),
      Rate(t.diet, p.diet),
      Rate(t.travel, p.flightFrequency)
    )
  }

  /**
   * The total and the breakdown. The total is computed as the sum of the six
   * terms, independently of the breakdown; it nevertheless equals the sum of
   * the four breakdown fields.
   */
  function CalculateFootprint(t: EmissionTables, p: Profile): (r: (real, Breakdown))
    requires p.householdSize >= 1
    ensures r.0 == r.1.transport + r.1.energy + r.1.diet + r.1.travel
    ensures r.1.diet == Rate(t.diet, p.diet) && r.1.travel == Rate(t.travel, p.flightFrequency)
  {
    var terms := TermsOf(t, p);
    var total := terms.transport + terms.car + terms.publicTransport + terms.energy + terms.diet + terms.travel;
    (total, Breakdown(terms.transport + terms.car + terms.publicTransport, terms.energy, terms.diet, terms.travel))
  }

  /** With no distance, neither the transport mode nor the car's fuel type matters. */
  lemma ZeroDistanceIgnoresModeAndFuel(t: EmissionTables, p: Profile, mode: string, fuel: string)
    requires p.householdSize >= 1 && p.transportKm == 0.0
    ensures CalculateFootprint(t, p.(transportMode := mode, carType := fuel)) == CalculateFootprint(t, p)
    ensures CalculateFootprint(t, p).1.transport
            == Rate(t.transport, p.secondaryTransport) * (p.publicTransportFreq as real)
  {
    var q := p.(transportMode := mode, carType := fuel);
    assert TermsOf(t, q) == TermsOf(t, p).(transport := 0.0, car := 0.0);
  }

  /**
   * The car term reuses the commute distance: together with the primary-mode
   * term it is the distance times the sum of the two per-km factors.
   */
  lemma CarReusesCommuteDistance(t: EmissionTables, p: Profile)
    requires p.householdSize >= 1
    ensures TermsOf(t, p).transport + TermsOf(t, p).car == p.transportKm * PerKm(t, p)
  {
    var mode, fuel := Rate(t.transport, p.transportMode), Rate(t.car, p.carType);
    assert fuel * p.transportKm == p.transportKm * fuel;
    AddRight(p.transportKm, mode, fuel);
  }

  /**
   * The Transport field: the commute distance at the per-km cost of mode and
   * fuel together, plus the secondary trips at the secondary mode's factor.
   */
  lemma TransportBreakdown(t: EmissionTables, p: Profile)
    requires p.householdSize >= 1
    ensures CalculateFootprint(t, p).1.transport
            == p.transportKm * PerKm(t, p) + Rate(t.transport, p.secondaryTransport) * (p.publicTransportFreq as real)
  {
    CarReusesCommuteDistance(t, p);
  }

  /** What one km of the primary commute costs: the mode's factor plus the car's. */
  function PerKm(t: EmissionTables, p: Profile): real
  {
    Rate(t.transport, p.transportMode) + Rate(t.car, p.carType)
  }

  lemma AddRight(c: real, a: real, b: real)
    ensures c * (a + b) == c * a + c * b
  {
  }

  /** Diet and Travel are flat: only the diet and flight labels affect them. */
  lemma DietAndTravelAreFlat(t: EmissionTables, p: Profile, q: Profile)
    requires p.householdSize >= 1 && q.householdSize >= 1
    requires p.diet == q.diet && p.flightFrequency == q.flightFrequency
    ensures CalculateFootprint(t, p).1.diet == CalculateFootprint(t, q).1.diet
    ensures CalculateFootprint(t, p).1.travel == CalculateFootprint(t, q).1.travel
  {
  }

  /** The Energy field is the household's whole energy footprint shared equally among its members. */
  lemma EnergyIsSharedByHousehold(t: EmissionTables, p: Profile)
    requires p.householdSize >= 1
    ensures CalculateFootprint(t, p).1.energy * (p.householdSize as real)
            == p.energyUsage * Rate(t.energy, p.energySource)
  {
    var e := p.energyUsage * Rate(t.energy, p.energySource);
    assert CalculateFootprint(t, p).1.energy == e / (p.householdSize as real);
    ShareBack(e, p.householdSize as real);
  }

  /** Sharing e among h people and multiplying back by h gives e. */
  lemma ShareBack(e: real, h: real)
    requires h > 0.0
    ensures (e / h) * h == e
  {
  }

  /** With non-negative tables and form inputs, every field and the total are non-negative. */
  lemma FootprintIsNonNegative(t: EmissionTables, p: Profile)
    requires NonNegativeTables(t) && NonNegativeProfile(p)
    ensures var r := CalculateFootprint(t, p);
            r.0 >= 0.0 && r.1.transport >= 0.0 && r.1.energy >= 0.0 && r.1.diet >= 0.0 && r.1.travel >= 0.0
  {
    var terms := TermsOf(t, p);
    assert Rate(t.transport, p.transportMode) >= 0.0 && Rate(t.car, p.carType) >= 0.0;
    assert Rate(t.transport, p.secondaryTransport) >= 0.0 && Rate(t.energy, p.energySource) >= 0.0;
    assert Rate(t.diet, p.diet) >= 0.0 && Rate(t.travel, p.flightFrequency) >= 0.0;
    assert terms.transport >= 0.0 && terms.car >= 0.0 && terms.publicTransport >= 0.0;
    assert terms.energy * (p.householdSize as real) >= 0.0;
  }

  /** Every factor the application ships with is non-negative. */
  lemma AppTablesAreNonNegative()
    ensures NonNegativeTables(AppTables)
  {
    TransportAndCarFactorsAreNonNegative();
    EnergyFactorsAreNonNegative();
    DietAndTravelFactorsAreNonNegative();
  }

  lemma TransportAndCarFactorsAreNonNegative()
    ensures NonNegativeTable(TransportEmissions) && NonNegativeTable(CarEmissions)
  {
  }

  lemma EnergyFactorsAreNonNegative()
    ensures NonNegativeTable(EnergyEmissions)
  {
  }

  lemma DietAndTravelFactorsAreNonNegative()
    ensures NonNegativeTable(DietEmissions) && NonNegativeTable(TravelEmissions)
  {
  }

  /** The worked example: a gasoline car commute, coal power, a meat-heavy diet, monthly flights. */
  lemma WorkedExample()
    ensures var p := Profile(10.0, "Car", "Bus", "Gasoline", 5, 8.0, 2, "Coal", "Meat-heavy", "Monthly");
            CalculateFootprint(AppTables, p) == (14.5, Breakdown(5.0, 4.0, 2.5, 3.0))
  {
  }
}
