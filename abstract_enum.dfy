/** The enumeration domain of `AbstractEnum`: declared class constants
    become singleton instances with contiguous ordinals, created lazily by
    `valueOf` and all at once by `values`, and cached for the process. The
    three static caches, each keyed by class, become the fields of one
    `EnumClass` object per class, gathered in a `Registry`. */
module Enums {
  import opened PhpValues

  /** A class constant as reflection reports it: its name, whether it is
      `protected`, and its value. */
  datatype ConstDecl = ConstDecl(name: string, isProtected: bool, value: Value)

  /** A row of the constants table: a name, its ordinal and the arguments
      its instance is constructed with. */
  datatype Constant = Constant(name: string, ordinal: nat, args: seq<Value>)

  /** Constructor arguments of a constant: its value when that is an array,
      otherwise none. */
  function ArgsOf(v: Value): (r: seq<Value>) {
    if v.Arr? then v.items else []
  }

  /** No two declarations share a name (PHP refuses duplicate constants). */
  ghost predicate DistinctNames(decls: seq<ConstDecl>) {
    forall i, j | 0 <= i < j < |decls| :: decls[i].name != decls[j].name
  }

  ghost predicate DistinctConstantNames(table: seq<Constant>) {
    forall i, j | 0 <= i < j < |table| :: table[i].name != table[j].name
  }

  /** `name` is the name of a protected constant among `decls`. */
  ghost predicate IsDeclaredConstant(decls: seq<ConstDecl>, name: string) {
    exists i | 0 <= i < |decls| :: decls[i].isProtected && decls[i].name == name
  }

  /** The protected declarations, in declaration order. */
  function Protected(decls: seq<ConstDecl>): (r: seq<ConstDecl>)
    ensures |r| <= |decls|
  {
    if decls == [] then []
    else
      var last := decls[|decls| - 1];
      Protected(decls[..|decls| - 1]) + (if last.isProtected then [last] else [])
  }

  /** The constants table built from the declarations, one step per
      declaration: a protected one gets the next ordinal. */
  function ConstantTable(decls: seq<ConstDecl>): (r: seq<Constant>)
    ensures |r| == |Protected(decls)|
  {
    if decls == [] then []
    else
      var table := ConstantTable(decls[..|decls| - 1]);
      var last := decls[|decls| - 1];
      table + (if last.isProtected then [Constant(last.name, |table|, ArgsOf(last.value))] else [])
  }

  /** The table is the protected declarations, in order, numbered 0, 1, 2, ... */
  lemma {:induction false} ConstantTableShape(decls: seq<ConstDecl>)
    ensures |ConstantTable(decls)| == |Protected(decls)|
    ensures forall i | 0 <= i < |ConstantTable(decls)| ::
      ConstantTable(decls)[i] == Constant(Protected(decls)[i].name, i, ArgsOf(Protected(decls)[i].value))
  {
    if decls != [] {
      ConstantTableShape(decls[..|decls| - 1]);
    }
  }

  /** A declaration survives the filter exactly when it is protected. */
  lemma {:induction false} ProtectedMembers(decls: seq<ConstDecl>)
    ensures forall d :: d in Protected(decls) <==> d in decls && d.isProtected
  {
    if decls != [] {
      var init := decls[..|decls| - 1];
      ProtectedMembers(init);
      assert decls == init + [decls[|decls| - 1]];
    }
  }

  /** A name is in the table exactly when it names a protected constant. */
  lemma ConstantTableNames(decls: seq<ConstDecl>, name: string)
    ensures (exists i | 0 <= i < |ConstantTable(decls)| :: ConstantTable(decls)[i].name == name)
        <==> IsDeclaredConstant(decls, name)
  {
    ConstantTableShape(decls);
    ProtectedMembers(decls);
    var table, prot := ConstantTable(decls), Protected(decls);
    if i :| 0 <= i < |table| && table[i].name == name {
      assert prot[i] in prot;
      var j :| 0 <= j < |decls| && decls[j] == prot[i];
      assert decls[j].isProtected && decls[j].name == name;
    }
    if IsDeclaredConstant(decls, name) {
      var j :| 0 <= j < |decls| && decls[j].isProtected && decls[j].name == name;
      assert decls[j] in prot;
      var i :| 0 <= i < |prot| && prot[i] == decls[j];
      assert table[i].name == name;
    }
  }

  /** Distinct declared names give a table with distinct names. */
  lemma {:induction false} ConstantTableDistinct(decls: seq<ConstDecl>)
    requires DistinctNames(decls)
    ensures DistinctConstantNames(ConstantTable(decls))
  {
    if decls != [] {
      var n := |decls| - 1;
      var init := decls[..n];
      ConstantTableDistinct(init);
      var table := ConstantTable(init);
      if decls[n].isProtected {
        forall i | 0 <= i < |table| ensures table[i].name != decls[n].name {
          ConstantTableNames(init, table[i].name);
          assert exists k | 0 <= k < |ConstantTable(init)| :: ConstantTable(init)[k].name == table[i].name;
          assert IsDeclaredConstant(init, table[i].name);
          var j :| 0 <= j < |init| && init[j].isProtected && init[j].name == table[i].name;
          assert decls[j] == init[j];
        }
      }
    }
  }

  /** `array_key_exists` followed by a read on the constants table. */
  function Lookup(table: seq<Constant>, name: string): (r: Option<Constant>)
    ensures r.Some? <==> exists i | 0 <= i < |table| :: table[i].name == name
    ensures r.Some? ==> r.value in table && r.value.name == name
  {
    if table == [] then None
    else if table[0].name == name then Some(table[0])
    else Lookup(table[1..], name)
  }

  /** One singleton instance of an enumeration class. Its name, ordinal and
      constructor arguments are fixed when the registry creates it. */
  class EnumConstant {
    const enumType: string
    const name: string
    const ordinal: nat
    const args: seq<Value>

    constructor (enumType: string, name: string, ordinal: nat, args: seq<Value>)
      ensures this.enumType == enumType && this.name == name
      ensures this.ordinal == ordinal && this.args == args
    {
      this.enumType := enumType;
      this.name := name;
      this.ordinal := ordinal;
      this.args := args;
    }

    /** `__toString` renders the constant's name. */
    function ToString(): (r: string)
      ensures r == name
    {
      name
    }

    /** Ordinal difference; `other` must be an instance of this constant's
        class (a subclass instance passes the test). */
    function CompareTo(h: Hierarchy, other: EnumConstant): (r: Result<int>)
      ensures r.Err? <==> !h.InstanceOf(other.enumType, enumType)
      ensures r.Err? ==> r.error == Mismatch
      ensures r.Ok? ==> (r.value < 0 <==> ordinal < other.ordinal)
      ensures r.Ok? ==> (r.value == 0 <==> ordinal == other.ordinal)
      ensures r.Ok? ==> other.ordinal + r.value == ordinal
    {
      if !h.InstanceOf(other.enumType, enumType) then Err(Mismatch)
      else Ok(ordinal - other.ordinal)
    }
  }

  /** Same-class comparison is antisymmetric in sign and zero on itself. */
  lemma CompareToAntisymmetric(h: Hierarchy, a: EnumConstant, b: EnumConstant)
    requires a.enumType == b.enumType
    ensures a.CompareTo(h, a) == Ok(0)
    ensures a.CompareTo(h, b).Ok? && b.CompareTo(h, a).Ok?
    ensures a.CompareTo(h, b).value == -b.CompareTo(h, a).value
  {
  }


  /** The instances held for a class agree with its constants table. */
  ghost predicate CacheConsistent(t: string, cache: map<string, EnumConstant>, table: seq<Constant>) {
    forall n | n in cache ::
      && cache[n].enumType == t
      && cache[n].name == n
      && cache[n].ordinal < |table|
      && table[cache[n].ordinal] == Constant(n, cache[n].ordinal, cache[n].args)
  }

  /** `c2` keeps every entry of `c1`. */
  ghost predicate Extends(c2: map<string, EnumConstant>, c1: map<string, EnumConstant>) {
    forall n | n in c1 :: n in c2 && c2[n] == c1[n]
  }

  /** A fully loaded class: its list holds, at each ordinal, the cached
      instance of the constant with that ordinal. */
  ghost predicate LoadedConsistent(list: seq<EnumConstant>, cache: map<string, EnumConstant>, table: seq<Constant>) {
    && |list| == |table|
    && forall o | 0 <= o < |list| :: table[o].name in cache && list[o] == cache[table[o].name]
  }

  /** The static state `AbstractEnum` keeps for one enumeration class:
      `values` (name to instance), `allValuesLoaded` with `sorted` (the
      ordinal-sorted array `values()` leaves behind) and `constants` (the
      constants table, once computed). `declared` stands for what reflection
      reports of the class's constants, in declaration order. */
  class EnumClass {
    const enumType: string
    const declared: seq<ConstDecl>
    /** The table `constants()` computes, fixed by the declarations. */
    ghost const table: seq<Constant>
    var values: map<string, EnumConstant>
    var allValuesLoaded: bool
    var sorted: seq<EnumConstant>
    var constants: Option<seq<Constant>>

    ghost predicate Valid()
      reads this
    {
      && DistinctNames(declared)
      && table == ConstantTable(declared)
      && (constants.Some? ==> constants.value == table)
      && (values != map[] || allValuesLoaded ==> constants.Some?)
      && CacheConsistent(enumType, values, table)
      && (allValuesLoaded ==> LoadedConsistent(sorted, values, table))
    }

    /** `e` is the instance this class holds under its name. */
    ghost predicate Registered(e: EnumConstant)
      reads this
    {
      e.enumType == enumType && e.name in values && values[e.name] == e
    }

    constructor (enumType: string, declared: seq<ConstDecl>)
      requires DistinctNames(declared)
      ensures Valid()
      ensures this.enumType == enumType && this.declared == declared
      ensures values == map[] && !allValuesLoaded && constants == None
    {
      this.enumType := enumType;
      this.declared := declared;
      table := ConstantTable(declared);
      values := map[];
      allValuesLoaded := false;
      sorted := [];
      constants := None;
    }

    /** `constants()`: the cached table, or one built from the declarations
        with a running ordinal that counts protected constants only. */
    method LoadConstants() returns (result: seq<Constant>)
      requires Valid()
      modifies this`constants
      ensures Valid()
      ensures result == ConstantTable(declared)
      ensures constants == Some(result)
    {
      if constants.Some? {
        return constants.value;
      }
      var ordinal: int := -1;
      var i := 0;
      result := [];
      while i < |declared|
        invariant 0 <= i <= |declared|
        invariant result == ConstantTable(declared[..i])
        invariant ordinal == |result| - 1
      {
        assert declared[..i + 1][..i] == declared[..i];
        var d := declared[i];
        if d.isProtected {
          ordinal := ordinal + 1;
          result := result + [Constant(d.name, ordinal, ArgsOf(d.value))];
        }
        i := i + 1;
      }
      assert declared[..i] == declared;
      constants := Some(result);
    }

    /** A class with a constant not yet instantiated is not loaded. */
    lemma NotLoadedWhileMissing(o: nat)
      requires Valid() && o < |table|
      requires table[o].name !in values
      ensures !allValuesLoaded
    {
    }

    /** `createValue`: a new instance of the constant at `ordinal`, cached
        under its name. */
    method CreateValue(name: string, ordinal: nat, args: seq<Value>) returns (e: EnumConstant)
      requires Valid()
      requires ordinal < |table| && table[ordinal] == Constant(name, ordinal, args)
      requires name !in values && constants.Some?
      modifies this`values
      ensures Valid() && !allValuesLoaded
      ensures fresh(e) && e.enumType == enumType && e.name == name && e.ordinal == ordinal && e.args == args
      ensures values == old(values)[name := e]
    {
      NotLoadedWhileMissing(ordinal);
      e := new EnumConstant(enumType, name, ordinal, args);
      values := values[name := e];
    }

    /** `valueOf(name)`: the cached instance when there is one, otherwise a
        new instance of the declared constant of that name, otherwise
        `NoSuchConstant`. */
    method ValueOf(name: string) returns (r: Result<EnumConstant>)
      requires Valid()
      modifies this`values, this`constants
      ensures Valid()
      ensures r.Ok? <==> IsDeclaredConstant(declared, name)
      ensures r.Err? ==> r.error == NoSuchConstant && values == old(values)
      ensures r.Ok? ==> r.value.enumType == enumType && r.value.name == name && Registered(r.value)
      ensures r.Ok? ==> r.value.ordinal < |ConstantTable(declared)|
      ensures r.Ok? ==> ConstantTable(declared)[r.value.ordinal] == Constant(name, r.value.ordinal, r.value.args)
      ensures old(name in values) ==> r == Ok(old(values)[name]) && values == old(values)
      ensures old(name in values) ==> constants == old(constants)
      ensures !old(name in values) ==> constants == Some(ConstantTable(declared))
      ensures r.Ok? && !old(name in values) ==> fresh(r.value) && values == old(values)[name := r.value]
      ensures allValuesLoaded && r.Ok? ==> r.value in sorted
    {
      ConstantTableNames(declared, name);
      if name in values {
        r := Ok(values[name]);
        var o := values[name].ordinal;
        assert table[o].name == name;
        if allValuesLoaded {
          assert sorted[o] == values[table[o].name];
        }
        return;
      }
      var consts := LoadConstants();
      var c := Lookup(consts, name);
      if c.Some? {
        ConstantTableShape(declared);
        var e := CreateValue(name, c.value.ordinal, c.value.args);
        r := Ok(e);
      } else {
        r := Err(NoSuchConstant);
      }
    }

    /** `values()`: the cached sorted list once loaded; otherwise every
        constant not yet instantiated is created, the instances are put in
        ordinal order and the class is marked loaded. */
    method Values() returns (r: seq<EnumConstant>)
      requires Valid()
      modifies this
      ensures Valid()
      ensures allValuesLoaded && r == sorted
      ensures old(allValuesLoaded) ==> r == old(sorted) && values == old(values) && constants == old(constants)
      ensures |r| == |ConstantTable(declared)|
      ensures forall o | 0 <= o < |r| ::
        r[o].enumType == enumType && r[o].ordinal == o && Registered(r[o]) &&
        Constant(r[o].name, o, r[o].args) == ConstantTable(declared)[o]
      ensures Extends(values, old(values))
      ensures forall n | n in old(values) :: old(values)[n] in r
      ensures forall o | 0 <= o < |r| :: fresh(r[o]) || (r[o].name in old(values) && r[o] == old(values)[r[o].name])
      ensures constants == Some(ConstantTable(declared))
    {
      if allValuesLoaded {
        r := sorted;
        LoadedShape();
        return;
      }
      var consts := LoadConstants();
      FillMissing(consts);
      r := SortByOrdinal(consts);
      sorted := r;
      allValuesLoaded := true;
      LoadedShape();
    }

    /** The loop of `values()` that instantiates every constant of the table
        not yet cached, keeping the instances already there. */
    method FillMissing(consts: seq<Constant>)
      requires Valid() && !allValuesLoaded && consts == table && constants.Some?
      modifies this`values
      ensures Valid() && !allValuesLoaded
      ensures forall o | 0 <= o < |table| :: table[o].name in values
      ensures Extends(values, old(values))
      ensures forall n | n in values :: fresh(values[n]) || (n in old(values) && values[n] == old(values)[n])
    {
      ConstantTableShape(declared);
      var i := 0;
      while i < |consts|
        invariant 0 <= i <= |consts|
        invariant Valid() && !allValuesLoaded && constants.Some?
        invariant forall j | 0 <= j < i :: consts[j].name in values
        invariant Extends(values, old(values))
        invariant forall n | n in values :: fresh(values[n]) || (n in old(values) && values[n] == old(values)[n])
      {
        var c := consts[i];
        if c.name !in values {
          var _ := CreateValue(c.name, c.ordinal, c.args);
        }
        i := i + 1;
      }
    }

    /** The `uasort` of `values()`: the cached instances arranged by ordinal.
        The table is already in ordinal order, so the arrangement is read
        off it. */
    method SortByOrdinal(consts: seq<Constant>) returns (list: seq<EnumConstant>)
      requires Valid() && consts == table
      requires forall o | 0 <= o < |table| :: table[o].name in values
      ensures LoadedConsistent(list, values, table)
      ensures forall o | 0 <= o < |list| :: list[o].ordinal == o && Registered(list[o])
      ensures forall n | n in values :: values[n] in list
    {
      list := [];
      var i := 0;
      while i < |consts|
        invariant 0 <= i <= |consts|
        invariant |list| == i
        invariant forall o | 0 <= o < i :: list[o] == values[consts[o].name]
      {
        list := list + [values[consts[i].name]];
        i := i + 1;
      }
      ConstantTableDistinct(declared);
      forall o | 0 <= o < |list| ensures list[o].ordinal == o {
        var n := table[o].name;
        assert table[values[n].ordinal].name == n;
      }
      forall n | n in values ensures values[n] in list {
        assert list[values[n].ordinal] == values[n];
      }
    }

    /** The list of a loaded class holds, at ordinal `o`, the registered
        instance of the `o`-th constant. */
    lemma LoadedShape()
      requires Valid() && allValuesLoaded
      ensures forall o | 0 <= o < |sorted| ::
        sorted[o].enumType == enumType && sorted[o].ordinal == o && Registered(sorted[o]) &&
        Constant(sorted[o].name, o, sorted[o].args) == table[o]
      ensures forall n | n in values :: values[n] in sorted
    {
      ConstantTableDistinct(declared);
      forall o | 0 <= o < |sorted| ensures sorted[o].ordinal == o {
        var n := table[o].name;
        assert table[values[n].ordinal].name == n;
      }
      forall n | n in values ensures values[n] in sorted {
        assert sorted[values[n].ordinal] == values[n];
      }
    }

    /** Two registered instances with one ordinal are one instance, so
        comparing them by ordinal is comparing identities. */
    lemma SameOrdinalSameInstance(a: EnumConstant, b: EnumConstant)
      requires Valid() && Registered(a) && Registered(b)
      requires a.ordinal == b.ordinal
      ensures a == b
    {
    }

    /** A loaded class lists each declared protected constant exactly once. */
    lemma LoadedDomain()
      requires Valid() && allValuesLoaded
      ensures forall o, p | 0 <= o < p < |sorted| :: sorted[o] != sorted[p]
      ensures forall name :: IsDeclaredConstant(declared, name) <==>
        exists o | 0 <= o < |sorted| :: sorted[o].name == name
    {
      LoadedShape();
      forall name ensures IsDeclaredConstant(declared, name) <==>
        exists o | 0 <= o < |sorted| :: sorted[o].name == name
      {
        ConstantTableNames(declared, name);
        if IsDeclaredConstant(declared, name) {
          assert exists k | 0 <= k < |ConstantTable(declared)| :: ConstantTable(declared)[k].name == name;
          var i :| 0 <= i < |table| && table[i].name == name;
          assert sorted[i].name == name;
        }
        if o :| 0 <= o < |sorted| && sorted[o].name == name {
          assert table[o].name == name;
          assert exists k | 0 <= k < |ConstantTable(declared)| :: ConstantTable(declared)[k].name == name;
        }
      }
    }

    /** A registered instance's name, ordinal and string form are those of
        the declared constant it was created for. */
    lemma InstanceDescribesConstant(e: EnumConstant)
      requires Valid() && Registered(e)
      ensures IsDeclaredConstant(declared, e.name)
      ensures e.ToString() == e.name
      ensures e.ordinal < |ConstantTable(declared)|
      ensures ConstantTable(declared)[e.ordinal] == Constant(e.name, e.ordinal, e.args)
    {
      ConstantTableNames(declared, e.name);
      assert ConstantTable(declared)[e.ordinal].name == e.name;
    }
  }

  /** Every enumeration class of the program with its static state, and the
      class table `is_subclass_of` and `instanceof` consult. */
  class Registry {
    const hierarchy: Hierarchy
    const classes: map<string, EnumClass>

    ghost predicate Valid()
      reads this, classes.Values
    {
      && (forall t :: t in classes <==> hierarchy.IsSubclassOf(t, AbstractEnumClass))
      && (forall t | t in classes :: classes[t].enumType == t && classes[t].Valid())
    }

    constructor (hierarchy: Hierarchy, classes: map<string, EnumClass>)
      requires forall t :: t in classes <==> hierarchy.IsSubclassOf(t, AbstractEnumClass)
      requires forall t | t in classes :: classes[t].enumType == t && classes[t].Valid()
      ensures Valid() && this.hierarchy == hierarchy && this.classes == classes
    {
      this.hierarchy := hierarchy;
      this.classes := classes;
    }

    /** The static state of class `t`, the only state a call on `t` touches. */
    ghost function StateOf(t: string): (r: set<object>)
      reads this
    {
      if t in classes then {classes[t]} else {}
    }

    /** A step that changed the state of class `t` alone keeps the registry
        valid when that class stayed valid. */
    twostate lemma OneClassChanged(t: string)
      requires old(Valid()) && t in classes && classes[t].Valid()
      requires forall u | u in classes && u != t :: unchanged(classes[u])
      ensures Valid()
    {
    }
  }
}
