/** The PC entity (PC.java): a personal-computer record with four validated
    fields. The constructor rejects the first invalid argument and builds
    nothing; `setModel` and `setComps` validate first and change nothing on
    invalid input; `year` and `manufacturer` have no setter. */
module PcEntity {
  import opened Format

  /** Java's 32-bit `int`. */
  newtype int32 = x: int | -0x8000_0000 <= x < 0x8000_0000

  /** An optional value: a Java reference that may be `null` (`None`), or the
      field the constructor reports, if any. */
  datatype Option<T> = None | Some(value: T)

  /** The component names of a PC (the source's `Set<String>`). */
  type CompSet = set<string>

  /** `validateModel` (PC.java:202-204). */
  predicate ValidModel(model: Option<string>)
  {
    model.Some? && |model.value| <= 20 && model.value != []
  }

  /** `validateYear` (PC.java:106-108). */
  predicate ValidYear(year: int32)
  {
    year >= 1940
  }

  /** `validateManufacturer` (PC.java:90-92). */
  predicate ValidManufacturer(manufacturer: Option<string>)
  {
    manufacturer.Some? && manufacturer.value != [] && |manufacturer.value| <= 20
  }

  /** `validateComps` (PC.java:154-156): any set will do, even an empty one. */
  predicate ValidComps(comps: Option<CompSet>)
  {
    comps.Some?
  }

  /** A model is accepted exactly when it is present and holds 1 to 20
      characters; at the boundaries, 1 and 20 characters are accepted and 0
      and 21 are rejected. */
  lemma ModelBounds(s: string)
    ensures ValidModel(Some(s)) <==> 1 <= |s| <= 20
    ensures !ValidModel(None)
    ensures ValidModel(Some(Repeat('m', 1))) && ValidModel(Some(Repeat('m', 20)))
    ensures !ValidModel(Some(Repeat('m', 0))) && !ValidModel(Some(Repeat('m', 21)))
  {
  }

  /** A manufacturer is accepted under the same rule as a model: present,
      with 1 to 20 characters. */
  lemma ManufacturerBounds(s: string)
    ensures ValidManufacturer(Some(s)) <==> 1 <= |s| <= 20
    ensures !ValidManufacturer(None)
    ensures ValidManufacturer(Some(Repeat('f', 1))) && ValidManufacturer(Some(Repeat('f', 20)))
    ensures !ValidManufacturer(Some(Repeat('f', 0))) && !ValidManufacturer(Some(Repeat('f', 21)))
  {
  }

  /** A year is accepted exactly from 1940 on: 1940 is accepted, 1939 is
      rejected. */
  lemma YearBounds(year: int32)
    ensures ValidYear(year) <==> year >= 1940
    ensures ValidYear(1940) && !ValidYear(1939)
  {
  }

  /** The fields of a PC, in the order the constructor checks them. */
  datatype Field = Model | Year | Manufacturer | Comps
  {
    function Rank(): nat
    {
      match this
      case Model => 0
      case Year => 1
      case Manufacturer => 2
      case Comps => 3
    }
  }

  /** Whether the constructor argument for field `f` passes its validator. */
  predicate ArgValid(f: Field, model: Option<string>, year: int32,
                     manufacturer: Option<string>, comps: Option<CompSet>)
  {
    match f
    case Model => ValidModel(model)
    case Year => ValidYear(year)
    case Manufacturer => ValidManufacturer(manufacturer)
    case Comps => ValidComps(comps)
  }

  /** The field the constructor reports, if any: it checks model, year,
      manufacturer and comps in that order and stops at the first failure. */
  function FirstInvalid(model: Option<string>, year: int32,
                        manufacturer: Option<string>, comps: Option<CompSet>): (r: Option<Field>)
    ensures r.None? <==> forall f: Field :: ArgValid(f, model, year, manufacturer, comps)
    ensures r.Some? ==> !ArgValid(r.value, model, year, manufacturer, comps)
    ensures r.Some? ==> forall f: Field :: f.Rank() < r.value.Rank() ==>
                          ArgValid(f, model, year, manufacturer, comps)
  {
    if !ValidModel(model) then
      assert !ArgValid(Model, model, year, manufacturer, comps);
      Some(Model)
    else if !ValidYear(year) then
      assert !ArgValid(Year, model, year, manufacturer, comps);
      Some(Year)
    else if !ValidManufacturer(manufacturer) then
      assert !ArgValid(Manufacturer, model, year, manufacturer, comps);
      Some(Manufacturer)
    else if !ValidComps(comps) then
      assert !ArgValid(Comps, model, year, manufacturer, comps);
      Some(Comps)
    else
      AllArgsValid(model, year, manufacturer, comps);
      None
  }

  lemma AllArgsValid(model: Option<string>, year: int32,
                     manufacturer: Option<string>, comps: Option<CompSet>)
    requires ValidModel(model) && ValidYear(year) && ValidManufacturer(manufacturer) && ValidComps(comps)
    ensures forall f: Field :: ArgValid(f, model, year, manufacturer, comps)
  {
    forall f: Field ensures ArgValid(f, model, year, manufacturer, comps) {
      match f
      case Model =>
      case Year =>
      case Manufacturer =>
      case Comps =>
    }
  }

  /** The four fields of a PC as a value. */
  datatype PcView = PcView(model: string, year: int32, manufacturer: string, comps: CompSet)

  /** The class invariant, on a value: every field passes its validator. */
  predicate ValidView(v: PcView)
  {
    ValidModel(Some(v.model)) && ValidYear(v.year) &&
    ValidManufacturer(Some(v.manufacturer)) && ValidComps(Some(v.comps))
  }

  class PC {
    var model: string
    var year: int32
    var manufacturer: string
    var comps: CompSet

    /** The class invariant: all four fields are valid. */
    predicate Valid()
      reads this
    {
      ValidView(View())
    }

    function View(): PcView
      reads this
    {
      PcView(model, year, manufacturer, comps)
    }

    /** The assignments of the constructor, reached only once every argument
        has passed its validator (see `NewPC` for the checks). */
    constructor (model: string, year: int32, manufacturer: string, comps: CompSet)
      requires FirstInvalid(Some(model), year, Some(manufacturer), Some(comps)).None?
      ensures Valid()
      ensures View() == PcView(model, year, manufacturer, comps)
    {
      this.model := model;
      this.year := year;
      this.manufacturer := manufacturer;
      this.comps := comps;
      new;
      assert ArgValid(Model, Some(model), year, Some(manufacturer), Some(comps));
      assert ArgValid(Year, Some(model), year, Some(manufacturer), Some(comps));
      assert ArgValid(Manufacturer, Some(model), year, Some(manufacturer), Some(comps));
    }

    /** `getModel`: under the invariant, always a valid model. */
    function GetModel(): (r: string)
      reads this
      requires Valid()
      ensures 1 <= |r| <= 20
    {
      model
    }

    /** `getYear`: under the invariant, never before 1940. */
    function GetYear(): (r: int32)
      reads this
      requires Valid()
      ensures r >= 1940
    {
      year
    }

    /** `getManufacturer`: under the invariant, always a valid manufacturer. */
    function GetManufacturer(): (r: string)
      reads this
      requires Valid()
      ensures 1 <= |r| <= 20
    {
      manufacturer
    }

    function GetComps(): CompSet
      reads this
    {
      comps
    }

    /** `setModel`: validate, then apply. Only `model` may change, and only
        when the new value is valid. */
    method SetModel(model: Option<string>) returns (ok: bool)
      requires Valid()
      modifies this`model
      ensures Valid()
      ensures ok == ValidModel(model)
      ensures View() == if ok then old(View()).(model := model.value) else old(View())
    {
      if !ValidModel(model) {
        return false;
      }
      this.model := model.value;
      return true;
    }

    /** `setComps`: validate (non-null), then apply. Only `comps` may change. */
    method SetComps(comps: Option<CompSet>) returns (ok: bool)
      requires Valid()
      modifies this`comps
      ensures Valid()
      ensures ok == comps.Some?
      ensures View() == if ok then old(View()).(comps := comps.value) else old(View())
    {
      if !ValidComps(comps) {
        return false;
      }
      this.comps := comps.value;
      return true;
    }

    /** `equals(Object)`: true for the same object, false for null or a
        non-PC, otherwise a comparison of year, model, manufacturer and comps. */
    function Equals(that: object?): (r: bool)
      reads this, that
      ensures r <==> that is PC && View() == (that as PC).View()
    {
      if this == that then true
      else if !(that is PC) then false
      else
        var pc := that as PC;
        year == pc.year && model == pc.model &&
        manufacturer == pc.manufacturer && comps == pc.comps
    }

    /** `toString`: `PC:<model,year,manufacturer,comps>`, where the rendering
        of the component set is supplied by the caller. */
    function ToText(compsText: CompSet -> string): (r: string)
      reads this
      ensures |r| == 8 + |model| + |IntText(year as int)| + |manufacturer| + |compsText(comps)|
    {
      "PC:<" + model + "," + IntText(year as int) + "," + manufacturer + "," + compsText(comps) + ">"
    }
  }

  /** The outcome of the source's constructor: a new PC, or the
      `NotPossibleException` naming the first invalid field. */
  datatype Construction = Created(pc: PC) | Rejected(field: Field)

  /** The source's constructor `PC(model, year, manufacturer, comps)`. */
  method NewPC(model: Option<string>, year: int32,
               manufacturer: Option<string>, comps: Option<CompSet>) returns (r: Construction)
    ensures r.Rejected? <==> FirstInvalid(model, year, manufacturer, comps).Some?
    ensures r.Rejected? ==> FirstInvalid(model, year, manufacturer, comps) == Some(r.field)
    ensures r.Created? ==> fresh(r.pc) && r.pc.Valid() &&
                           r.pc.View() == PcView(model.value, year, manufacturer.value, comps.value)
  {
    if !ValidModel(model) {
      return Rejected(Model);
    }
    if !ValidYear(year) {
      return Rejected(Year);
    }
    if !ValidManufacturer(manufacturer) {
      return Rejected(Manufacturer);
    }
    if !ValidComps(comps) {
      return Rejected(Comps);
    }
    var pc := new PC(model.value, year, manufacturer.value, comps.value);
    return Created(pc);
  }

  /** Construction succeeds exactly when all four validators accept. */
  lemma ConstructionSucceedsIff(model: Option<string>, year: int32,
                                manufacturer: Option<string>, comps: Option<CompSet>)
    ensures FirstInvalid(model, year, manufacturer, comps).None? <==>
            ValidModel(model) && ValidYear(year) && ValidManufacturer(manufacturer) && ValidComps(comps)
  {
    var r := FirstInvalid(model, year, manufacturer, comps);
    if r.None? {
      assert ArgValid(Model, model, year, manufacturer, comps);
      assert ArgValid(Year, model, year, manufacturer, comps);
      assert ArgValid(Manufacturer, model, year, manufacturer, comps);
      assert ArgValid(Comps, model, year, manufacturer, comps);
    }
  }

  /** `toString` opens with `PC:<`, then the model and a comma, then the
      year's digits and a comma, then the manufacturer and a comma, then the
      component text, and closes with `>`. */
  lemma ToTextLayout(pc: PC, compsText: CompSet -> string)
    ensures var r := pc.ToText(compsText);
      var m := pc.model;
      var y := IntText(pc.year as int);
      var f := pc.manufacturer;
      var c := compsText(pc.comps);
      var b := 6 + |m| + |y|;
      |r| == b + |f| + |c| + 2 &&
      r[..4] == "PC:<" && r[|r| - 1] == '>' &&
      r[4..4 + |m|] == m && r[4 + |m|] == ',' &&
      r[5 + |m|..5 + |m| + |y|] == y && r[5 + |m| + |y|] == ',' &&
      r[b..b + |f|] == f && r[b + |f|] == ',' &&
      r[b + |f| + 1..|r| - 1] == c
  {
    var m := pc.model;
    var y := IntText(pc.year as int);
    var f := pc.manufacturer;
    var c := compsText(pc.comps);
    var head := "PC:<" + m + "," + y + ",";
    var tail := f + "," + c + ">";
    var r := pc.ToText(compsText);
    assert r == head + tail;
    HeadLayout(m, y);
    TailLayout(f, c);
    SliceLeft(head, tail, 0, |head|);
    SliceRight(head, tail, 0, |tail|);
    assert r[|head|..] == tail;
  }

  /** The part of `toString` before the manufacturer. */
  lemma HeadLayout(m: string, y: string)
    ensures var h := "PC:<" + m + "," + y + ",";
      |h| == 6 + |m| + |y| &&
      h[..4] == "PC:<" && h[4..4 + |m|] == m && h[4 + |m|] == ',' &&
      h[5 + |m|..5 + |m| + |y|] == y && h[5 + |m| + |y|] == ','
  {
    var p1 := "PC:<" + m;
    var p2 := p1 + ",";
    var p3 := p2 + y;
    SliceLeft(p3, ",", 0, |p3|);
    SliceRight(p2, y, 0, |y|);
    SliceLeft(p2, y, 0, |p2|);
    SliceLeft(p1, ",", 0, |p1|);
    SliceRight("PC:<", m, 0, |m|);
    SliceLeft("PC:<", m, 0, 4);
  }

  /** The part of `toString` from the manufacturer on. */
  lemma TailLayout(f: string, c: string)
    ensures var t := f + "," + c + ">";
      |t| == |f| + |c| + 2 &&
      t[..|f|] == f && t[|f|] == ',' && t[|f| + 1..|t| - 1] == c && t[|t| - 1] == '>'
  {
    var q1 := f + ",";
    var q2 := q1 + c;
    SliceLeft(q2, ">", 0, |f|);
    SliceLeft(q1, c, 0, |f|);
    SliceLeft(f, ",", 0, |f|);
    SliceLeft(q2, ">", |q1|, |q2|);
    SliceRight(q1, c, 0, |c|);
  }

  lemma EqualsReflexive(a: PC)
    ensures a.Equals(a)
  {
  }

  lemma EqualsSymmetric(a: PC, b: PC)
    ensures a.Equals(b) == b.Equals(a)
  {
  }

  lemma EqualsTransitive(a: PC, b: PC, c: PC)
    requires a.Equals(b) && b.Equals(c)
    ensures a.Equals(c)
  {
  }

  /** Two PCs that differ in any one field, the component set included, are
      not equal. */
  lemma EqualsDetectsEachField(a: PC, b: PC)
    requires a.year != b.year || a.model != b.model ||
             a.manufacturer != b.manufacturer || a.comps != b.comps
    ensures !a.Equals(b)
  {
  }
}
