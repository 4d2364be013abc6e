/** Schema derivation (src/fastbg/schema.py) over abstract column descriptors: which
    mapper attributes become fields, the Python type each gets, required or not. */
module Schema {
  import opened Wrappers

  /** A Python type, by name (`int`, `str`, `datetime`, ...). */
  datatype PyType = PyType(name: string)

  /** The `impl` of a decorated column type, with its `python_type` when it has one. */
  datatype TypeImpl = TypeImpl(pythonType: Option<PyType>)

  /** A column's SQLAlchemy type: `impl` present or not, `python_type` present or not. */
  datatype ColumnType = ColumnType(impl: Option<TypeImpl>, pythonType: Option<PyType>)

  datatype Column = Column(typ: ColumnType, nullable: bool, hasDefault: bool)

  /** An entry of `mapper.attrs`: a column property with its columns, or anything else
      (a relationship, a synonym, ...). */
  datatype MapperAttr = ColumnProperty(key: string, columns: seq<Column>) | OtherProperty(key: string)

  datatype FieldType = Plain(t: PyType) | OptionalOf(t: PyType)

  /** `...` (required) or the default `None`. */
  datatype FieldDefault = Required | DefaultNone

  datatype FieldInfo = FieldInfo(typ: FieldType, default: FieldDefault)

  datatype PydanticModel = PydanticModel(name: string, fields: map<string, FieldInfo>)

  datatype SchemaError =
    | UnresolvedType(attr: string)   // the `raise` of an undeterminable type
    | UnexpectedKeyword(arg: string) // a keyword argument the signature does not accept

  /** `if exclude is None: exclude = []` followed by `exclude = exclude or []`. */
  function ExcludeList(exclude: Option<seq<string>>): seq<string> {
    if exclude.None? then [] else exclude.value
  }

  /** The type lookup: through `impl` when the column type has one (and then only there),
      otherwise the column type's own `python_type`. */
  function ResolveType(c: Column): Option<PyType> {
    if c.typ.impl.Some? then c.typ.impl.value.pythonType else c.typ.pythonType
  }

  /** The field made from a column with resolved type `t`. With `allOptional` every field
      becomes `Optional` with default `None`. */
  function FieldOf(c: Column, t: PyType, allOptional: bool): FieldInfo {
    if allOptional then FieldInfo(OptionalOf(t), DefaultNone)
    else if !c.hasDefault && !c.nullable then FieldInfo(Plain(t), Required)
    else if c.nullable then FieldInfo(OptionalOf(t), DefaultNone)
    else FieldInfo(Plain(t), DefaultNone)
  }

  /** The attributes the loop turns into fields: column properties with at least one
      column whose key is not excluded. */
  predicate Eligible(a: MapperAttr, exclude: seq<string>) {
    a.ColumnProperty? && |a.columns| > 0 && a.key !in exclude
  }

  /** The `fields` dictionary after the loop has visited `attrs`, or the failure it stops at. */
  function DeriveFields(attrs: seq<MapperAttr>, exclude: seq<string>, allOptional: bool)
    : Result<map<string, FieldInfo>, SchemaError>
  {
    if attrs == [] then Ok(map[])
    else
      var a := attrs[|attrs| - 1];
      match DeriveFields(attrs[..|attrs| - 1], exclude, allOptional)
      case Err(e) => Err(e)
      case Ok(f) =>
        if !Eligible(a, exclude) then Ok(f)
        else match ResolveType(a.columns[0])
          case None => Err(UnresolvedType(a.key))
          case Some(t) => Ok(f[a.key := FieldOf(a.columns[0], t, allOptional)])
  }

  /** The schema derived for a model named `modelName`. */
  function DerivedSchema(modelName: string, attrs: seq<MapperAttr>, exclude: Option<seq<string>>, allOptional: bool)
    : Result<PydanticModel, SchemaError>
  {
    match DeriveFields(attrs, ExcludeList(exclude), allOptional)
    case Err(e) => Err(e)
    case Ok(f) => Ok(PydanticModel(modelName + "Schema", f))
  }

  /** `sqlalchemy_to_pydantic`, with the `all_optional` keyword its callers pass. */
  method SqlalchemyToPydantic(modelName: string, attrs: seq<MapperAttr>, exclude: Option<seq<string>>,
                              allOptional: bool := false)
    returns (r: Result<PydanticModel, SchemaError>)
    ensures r == DerivedSchema(modelName, attrs, exclude, allOptional)
    ensures r.Ok? ==> r.value.name == modelName + "Schema"
  {
    var ex := ExcludeList(exclude);
    var fields: map<string, FieldInfo> := map[];
    for i := 0 to |attrs|
      invariant DeriveFields(attrs[..i], ex, allOptional) == Ok(fields)
    {
      assert attrs[..i + 1][..i] == attrs[..i];
      var attr := attrs[i];
      if attr.ColumnProperty? && |attr.columns| > 0 {
        var name := attr.key;
        if name in ex {
          continue;
        }
        var column := attr.columns[0];
        var pythonType: Option<PyType> := None;
        if column.typ.impl.Some? {
          if column.typ.impl.value.pythonType.Some? {
            pythonType := column.typ.impl.value.pythonType;
          }
        } else if column.typ.pythonType.Some? {
          pythonType := column.typ.pythonType;
        }
        if pythonType.None? {
          DeriveErrorSticks(attrs, i + 1, ex, allOptional);
          assert attrs[..|attrs|] == attrs;
          return Err(UnresolvedType(name));
        }
        var typ := Plain(pythonType.value);
        var default := DefaultNone;
        if !column.hasDefault && !column.nullable {
          default := Required;
        } else if column.nullable {
          typ := OptionalOf(pythonType.value);
        }
        if allOptional {
          typ, default := OptionalOf(pythonType.value), DefaultNone;
        }
        fields := fields[name := FieldInfo(typ, default)];
      }
    }
    assert attrs[..|attrs|] == attrs;
    r := Ok(PydanticModel(modelName + "Schema", fields));
  }

  /** Once the loop has failed, the rest of the attributes do not matter. */
  lemma {:induction false} DeriveErrorSticks(attrs: seq<MapperAttr>, i: nat, exclude: seq<string>, allOptional: bool)
    requires i <= |attrs| && DeriveFields(attrs[..i], exclude, allOptional).Err?
    ensures DeriveFields(attrs, exclude, allOptional) == DeriveFields(attrs[..i], exclude, allOptional)
    decreases |attrs| - i
  {
    if i < |attrs| {
      assert attrs[..i + 1][..i] == attrs[..i];
      DeriveErrorSticks(attrs, i + 1, exclude, allOptional);
    } else {
      assert attrs[..i] == attrs;
    }
  }

  // ---------------------------------------------------------------------------------
  // What a derived schema contains.
  // ---------------------------------------------------------------------------------

  /** The fields are exactly the keys of the eligible attributes. */
  lemma {:induction false} DerivedKeys(attrs: seq<MapperAttr>, exclude: seq<string>, allOptional: bool, k: string)
    requires DeriveFields(attrs, exclude, allOptional).Ok?
    ensures k in DeriveFields(attrs, exclude, allOptional).value <==>
      exists i :: 0 <= i < |attrs| && Eligible(attrs[i], exclude) && attrs[i].key == k
  {
    if attrs != [] {
      var init := attrs[..|attrs| - 1];
      DerivedKeys(init, exclude, allOptional, k);
      if exists i :: 0 <= i < |attrs| && Eligible(attrs[i], exclude) && attrs[i].key == k {
        var i :| 0 <= i < |attrs| && Eligible(attrs[i], exclude) && attrs[i].key == k;
        if i < |init| {
          assert init[i] == attrs[i];
        }
      }
    }
  }

  /** An excluded name never becomes a field. */
  lemma ExcludedNeverField(attrs: seq<MapperAttr>, exclude: seq<string>, allOptional: bool, k: string)
    requires DeriveFields(attrs, exclude, allOptional).Ok? && k in exclude
    ensures k !in DeriveFields(attrs, exclude, allOptional).value
  {
    DerivedKeys(attrs, exclude, allOptional, k);
  }

  /** Derivation fails exactly when some eligible attribute's first column has no
      resolvable type. */
  lemma {:induction false} DeriveFailsIff(attrs: seq<MapperAttr>, exclude: seq<string>, allOptional: bool)
    ensures DeriveFields(attrs, exclude, allOptional).Err? <==>
      exists i :: 0 <= i < |attrs| && Eligible(attrs[i], exclude) && ResolveType(attrs[i].columns[0]).None?
  {
    if attrs != [] {
      var init := attrs[..|attrs| - 1];
      DeriveFailsIff(init, exclude, allOptional);
      if exists i :: 0 <= i < |attrs| && Eligible(attrs[i], exclude) && ResolveType(attrs[i].columns[0]).None? {
        var i :| 0 <= i < |attrs| && Eligible(attrs[i], exclude) && ResolveType(attrs[i].columns[0]).None?;
        if i < |init| {
          assert init[i] == attrs[i];
        }
      }
    }
  }

  /** Field `f` named `k` is made from the first column of attribute i, the last eligible
      attribute with key `k`. */
  ghost predicate FieldSource(attrs: seq<MapperAttr>, exclude: seq<string>, allOptional: bool, i: int, k: string, f: FieldInfo) {
    && 0 <= i < |attrs| && Eligible(attrs[i], exclude) && attrs[i].key == k
    && (forall j :: i < j < |attrs| && Eligible(attrs[j], exclude) ==> attrs[j].key != k)
    && var c := attrs[i].columns[0];
       && ResolveType(c).Some?
       && f.typ == (if c.nullable || allOptional then OptionalOf(ResolveType(c).value) else Plain(ResolveType(c).value))
       && (f.default == Required <==> !allOptional && !c.hasDefault && !c.nullable)
  }

  /** Each field comes from the first column of the last eligible attribute with its key:
      its type is that column's resolved type, wrapped in `Optional` iff the column is
      nullable (or `allOptional` is asked for), and it is required iff the column has no
      default and is not nullable (and `allOptional` is not asked for). */
  lemma {:induction false} DerivedFieldShape(attrs: seq<MapperAttr>, exclude: seq<string>, allOptional: bool, k: string)
    requires DeriveFields(attrs, exclude, allOptional).Ok?
    requires k in DeriveFields(attrs, exclude, allOptional).value
    ensures exists i :: FieldSource(attrs, exclude, allOptional, i, k, DeriveFields(attrs, exclude, allOptional).value[k])
  {
    var init := attrs[..|attrs| - 1];
    var a := attrs[|attrs| - 1];
    var f := DeriveFields(attrs, exclude, allOptional).value;
    if Eligible(a, exclude) && a.key == k {
      var i := |attrs| - 1;
      assert ResolveType(a.columns[0]).Some?;
      assert f[k] == FieldOf(a.columns[0], ResolveType(a.columns[0]).value, allOptional);
      assert FieldSource(attrs, exclude, allOptional, i, k, f[k]);
    } else {
      var g := DeriveFields(init, exclude, allOptional).value;
      assert k in g && f[k] == g[k];
      DerivedFieldShape(init, exclude, allOptional, k);
      var i :| FieldSource(init, exclude, allOptional, i, k, g[k]);
      assert attrs[i] == init[i];
      assert forall j :: i < j < |attrs| && Eligible(attrs[j], exclude) ==> attrs[j].key != k by {
        forall j | i < j < |attrs| && Eligible(attrs[j], exclude)
          ensures attrs[j].key != k
        {
          if j < |init| {
            assert attrs[j] == init[j];
          }
        }
      }
      assert FieldSource(attrs, exclude, allOptional, i, k, f[k]);
    }
  }

  /** A missing exclude list is the same as an empty one. */
  lemma NoneExcludeIsEmpty(modelName: string, attrs: seq<MapperAttr>, allOptional: bool)
    ensures DerivedSchema(modelName, attrs, None, allOptional) == DerivedSchema(modelName, attrs, Some([]), allOptional)
  {
  }

  /** A decorated type whose `impl` has no `python_type` is not rescued by the type's own
      `python_type`: derivation fails. */
  lemma ImplWithoutPythonTypeFails(modelName: string, key: string, t: PyType, nullable: bool, hasDefault: bool)
    ensures var c := Column(ColumnType(Some(TypeImpl(None)), Some(t)), nullable, hasDefault);
      DerivedSchema(modelName, [ColumnProperty(key, [c])], None, false) == Err(UnresolvedType(key))
  {
    var c := Column(ColumnType(Some(TypeImpl(None)), Some(t)), nullable, hasDefault);
    var attrs := [ColumnProperty(key, [c])];
    assert attrs[..0] == [];
    assert DeriveFields(attrs[..0], [], false) == Ok(map[]);
    assert Eligible(attrs[0], []);
    assert ResolveType(c) == None;
  }

  /** A column property with no columns, and any other attribute, is skipped. */
  lemma {:induction false} SkippedAttributes(attrs: seq<MapperAttr>, exclude: seq<string>, allOptional: bool, k: string)
    requires DeriveFields(attrs, exclude, allOptional).Ok?
    requires forall i :: 0 <= i < |attrs| && attrs[i].key == k ==> attrs[i].OtherProperty? || attrs[i].columns == []
    ensures k !in DeriveFields(attrs, exclude, allOptional).value
  {
    DerivedKeys(attrs, exclude, allOptional, k);
  }

  // ---------------------------------------------------------------------------------
  // The signature as written accepts no `all_optional` keyword.
  // ---------------------------------------------------------------------------------

  /** A call of `sqlalchemy_to_pydantic` against the signature as written, which has only
      the keyword `exclude`: passing `all_optional` is a `TypeError`. */
  function CallAsWritten(modelName: string, attrs: seq<MapperAttr>, exclude: Option<seq<string>>,
                         allOptional: Option<bool>): Result<PydanticModel, SchemaError>
  {
    if allOptional.Some? then Err(UnexpectedKeyword("all_optional"))
    else DerivedSchema(modelName, attrs, exclude, false)
  }

  /** Every call that passes `all_optional`, as the router factory does for its update
      schema, fails whatever the model. */
  lemma AllOptionalRejected(modelName: string, attrs: seq<MapperAttr>, exclude: Option<seq<string>>)
    ensures CallAsWritten(modelName, attrs, exclude, Some(true)) == Err(UnexpectedKeyword("all_optional"))
  {
  }

  /** With `all_optional` honoured, the update schema has the same fields as the plain
      one, every one of them `Optional` with default `None`. */
  lemma {:induction false} AllOptionalFields(attrs: seq<MapperAttr>, exclude: seq<string>)
    ensures DeriveFields(attrs, exclude, true).Ok? <==> DeriveFields(attrs, exclude, false).Ok?
    ensures DeriveFields(attrs, exclude, true).Ok? ==>
      var f, g := DeriveFields(attrs, exclude, true).value, DeriveFields(attrs, exclude, false).value;
      f.Keys == g.Keys &&
      forall k :: k in f ==> f[k] == FieldInfo(OptionalOf(g[k].typ.t), DefaultNone)
  {
    if attrs != [] {
      AllOptionalFields(attrs[..|attrs| - 1], exclude);
    }
  }
}
