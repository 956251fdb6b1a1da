/**
  Contract lookup and the transaction-field encoder of the smart-contract
  layer (packages/smart/smart.go).

  The virtual machine's compiled object tree is given as a value: its
  name-indexed `Objects` map and its ordered `Children`. Compiling and running
  contract code belong to the interpreter, which is not part of this model.
*/
module Smart {
  import opened Wrappers
  import opened GoInt
  import opened Format

  /** Phase flags of `Contract.Called`. */
  const CallInit: bv32 := 0x01
  const CallFront: bv32 := 0x02
  const CallMain: bv32 := 0x04

  /** Kinds of objects in the tree; kinds other than contracts and functions are opaque here. */
  datatype ObjectType = ObjContract | ObjFunc | ObjOther(code: nat)

  /** A declared transaction field: its name and the Go type name of its values. */
  datatype FieldInfo = FieldInfo(name: string, typeName: string)

  /** What a block knows about itself; a contract block carries its name and its tx fields. */
  datatype BlockInfo = ContractInfo(name: string, tx: seq<FieldInfo>) | OtherInfo

  /** A compiled block and the objects and blocks nested in it. */
  datatype Block = Block(objType: ObjectType, info: BlockInfo, objects: map<string, ObjInfo>, children: seq<Block>)

  /** An entry of a block's `Objects` map. */
  datatype ObjInfo = ObjInfo(objType: ObjectType, value: Block)

  /** The tree of the virtual machine: its root's objects and children. */
  datatype VM = VM(objects: map<string, ObjInfo>, children: seq<Block>)

  /** The dynamic values an extend map holds. */
  datatype Value = Str(s: string) | Int64(i: int) | Bytes(b: seq<byte>) | OtherValue

  /** A transient handle on a contract; `extend` is `None` for a nil `Extend` in Go. */
  datatype Contract = Contract(name: string, called: bv32, extend: Option<map<string, Value>>, block: Block)

  /** The three phase flags are distinct single bits. */
  lemma PhaseFlagsDistinct()
    ensures CallInit & CallFront == 0 && CallInit & CallMain == 0 && CallFront & CallMain == 0
    ensures CallInit | CallFront | CallMain == 0x07
  {
  }

  /** `GetContract`: a handle when `name` is registered as a contract, `None` otherwise. */
  function GetContract(vm: VM, name: string): (r: Option<Contract>)
    ensures r.Some? <==> name in vm.objects && vm.objects[name].objType == ObjContract
    ensures r.Some? ==> r.value == Contract(name, 0, None, vm.objects[name].value)
  {
    if name in vm.objects && vm.objects[name].objType == ObjContract then
      Some(Contract(name, 0, None, vm.objects[name].value))
    else None
  }

  /** Go reads the `ContractInfo` of every child it finds to be a contract. */
  predicate ContractHasInfo(vm: VM, id: int) {
    0 <= id < |vm.children| && vm.children[id].objType == ObjContract ==> vm.children[id].info.ContractInfo?
  }

  /**
    `GetContractById`: a handle on child `id` when it exists and is a
    contract, `None` otherwise, without indexing past the end.
  */
  function GetContractById(vm: VM, id: int): (r: Option<Contract>)
    requires 0 <= id && ContractHasInfo(vm, id)
    ensures r.None? <==> |vm.children| <= id || vm.children[id].objType != ObjContract
    ensures r.Some? ==> r.value == Contract(vm.children[id].info.name, 0, None, vm.children[id])
  {
    if |vm.children| <= id || vm.children[id].objType != ObjContract then None
    else Some(Contract(vm.children[id].info.name, 0, None, vm.children[id]))
  }

  /** The tree registers contract `name` as child `id`, in both indexes. */
  predicate Registered(vm: VM, name: string, id: int) {
    && 0 <= id < |vm.children|
    && vm.children[id].objType == ObjContract
    && vm.children[id].info.ContractInfo?
    && vm.children[id].info.name == name
    && name in vm.objects
    && vm.objects[name] == ObjInfo(ObjContract, vm.children[id])
  }

  /** Lookup by name and lookup by id agree on a registered contract. */
  lemma LookupsAgree(vm: VM, name: string, id: int)
    requires Registered(vm, name, id)
    ensures GetContract(vm, name).Some? && GetContract(vm, name) == GetContractById(vm, id)
  {
  }

  /** `GetFunc`: the block of function `name` inside the contract, `None` otherwise. */
  function GetFunc(contract: Contract, name: string): (r: Option<Block>)
    ensures r.Some? <==> name in contract.block.objects && contract.block.objects[name].objType == ObjFunc
    ensures r.Some? ==> r.value == contract.block.objects[name].value
  {
    if name in contract.block.objects && contract.block.objects[name].objType == ObjFunc then
      Some(contract.block.objects[name].value)
    else None
  }

  // ----- TxJson -----

  /** The type names whose fields `TxJson` renders. */
  predicate Renders(typeName: string) {
    typeName == "string" || typeName == "int64" || typeName == "[]uint8"
  }

  /** A value of the dynamic type a field of type `typeName` holds. */
  predicate Matches(typeName: string, v: Value) {
    || (typeName == "string" && v.Str?)
    || (typeName == "int64" && v.Int64?)
    || (typeName == "[]uint8" && v.Bytes?)
  }

  /** Every rendered field has a value of its own type in `ext`. */
  predicate Typed(fields: seq<FieldInfo>, ext: map<string, Value>) {
    forall f :: f in fields && Renders(f.typeName) ==> f.name in ext && Matches(f.typeName, ext[f.name])
  }

  function Quote(s: string): string {
    "\"" + s + "\""
  }

  /** `"name": ` before every entry. */
  function Label(name: string): string {
    Quote(name) + ": "
  }

  /** The entry of one rendered field. */
  function Entry(f: FieldInfo, ext: map<string, Value>): (e: string)
    requires Renders(f.typeName) && f.name in ext && Matches(f.typeName, ext[f.name])
    ensures |Label(f.name)| < |e| && e[..|Label(f.name)|] == Label(f.name)
  {
    Label(f.name) + (
      if f.typeName == "string" then Quote(ext[f.name].s)
      else if f.typeName == "int64" then Decimal(ext[f.name].i)
      else Quote(Hex(ext[f.name].b)))
  }

  /** The entries of the rendered fields, in declaration order. */
  function Entries(fields: seq<FieldInfo>, ext: map<string, Value>): (lines: seq<string>)
    requires Typed(fields, ext)
    ensures |lines| <= |fields|
  {
    if fields == [] then []
    else
      var init, f := fields[..|fields| - 1], fields[|fields| - 1];
      if Renders(f.typeName) then Entries(init, ext) + [Entry(f, ext)] else Entries(init, ext)
  }

  /** The fields `TxJson` renders, in declaration order. */
  function RenderedFields(fields: seq<FieldInfo>): (kept: seq<FieldInfo>)
    ensures forall i :: 0 <= i < |kept| ==> Renders(kept[i].typeName) && kept[i] in fields
  {
    if fields == [] then []
    else
      var init, f := fields[..|fields| - 1], fields[|fields| - 1];
      if Renders(f.typeName) then RenderedFields(init) + [f] else RenderedFields(init)
  }

  /** Nothing is kept exactly when no field has one of the three rendered types. */
  lemma {:induction false} NoneRendered(fields: seq<FieldInfo>)
    ensures RenderedFields(fields) == [] <==> forall f :: f in fields ==> !Renders(f.typeName)
  {
    if fields != [] {
      var init := fields[..|fields| - 1];
      NoneRendered(init);
      assert fields == init + [fields[|fields| - 1]];
    }
  }

  /** Every field of a rendered type is kept: the filter drops nothing it should render. */
  lemma {:induction false} RenderedFieldsComplete(fields: seq<FieldInfo>)
    ensures forall f :: f in fields && Renders(f.typeName) ==> f in RenderedFields(fields)
  {
    if fields != [] {
      var init := fields[..|fields| - 1];
      RenderedFieldsComplete(init);
      assert fields == init + [fields[|fields| - 1]];
    }
  }

  /** The whole object literal. */
  function Encode(fields: seq<FieldInfo>, ext: map<string, Value>): string
    requires Typed(fields, ext)
  {
    "{" + Join(Entries(fields, ext), ",\r\n") + "}"
  }

  /**
    What `TxJson` demands of its contract. A nil `Extend` (`None`) is read as
    the empty map, so it is accepted only when no declared field renders;
    otherwise Go panics or formats junk.
  */
  predicate TxJsonReady(contract: Contract) {
    contract.block.info.ContractInfo? && Typed(contract.block.info.tx, contract.extend.GetOr(map[]))
  }

  /**
    A handle with a nil `Extend`, as `GetContract` and `GetContractById`
    return it, is ready for `TxJson` only when none of its fields renders,
    so the model never reads the missing map.
  */
  lemma NilExtendRendersNothing(contract: Contract)
    requires TxJsonReady(contract) && contract.extend.None?
    ensures forall f :: f in contract.block.info.tx ==> !Renders(f.typeName)
  {
    var tx := contract.block.info.tx;
    forall f | f in tx
      ensures !Renders(f.typeName)
    {
      var k :| 0 <= k < |tx| && tx[k] == f;
    }
  }

  /**
    `TxJson`: renders the declared tx fields of the contract, in declaration
    order, as `{` entries joined by `,\r\n` `}`. The `fmt.Println` of the
    source is left out.
  */
  method TxJson(contract: Contract) returns (out: string)
    requires TxJsonReady(contract)
    ensures out == Encode(contract.block.info.tx, contract.extend.GetOr(map[]))
    ensures |out| >= 2 && out[0] == '{' && out[|out| - 1] == '}'
    ensures out == "{}" <==> RenderedFields(contract.block.info.tx) == []
    ensures out == "{}" <==> forall f :: f in contract.block.info.tx ==> !Renders(f.typeName)
  {
    var tx := contract.block.info.tx;
    var ext := contract.extend.GetOr(map[]);
    var lines := RenderLines(tx, ext);
    EncodeShape(tx, ext);
    out := "{" + Join(lines, ",\r\n") + "}";
  }

  /** The loop of `TxJson`: one line per rendered field, in declaration order. */
  method RenderLines(tx: seq<FieldInfo>, ext: map<string, Value>) returns (lines: seq<string>)
    requires Typed(tx, ext)
    ensures lines == Entries(tx, ext)
  {
    lines := [];
    for i := 0 to |tx|
      invariant Typed(tx[..i], ext)
      invariant lines == Entries(tx[..i], ext)
    {
      EntriesOfPrefix(tx, ext, i);
      if Renders(tx[i].typeName) {
        var line := FieldLine(tx[i], ext);
        lines := lines + [line];
      }
    }
    assert tx[..|tx|] == tx;
  }

  /**
    The `switch` on the declared type inside the `TxJson` loop: strings
    quoted, int64 in decimal, byte slices in quoted lowercase hex. This is
    the executable step, written as the source's branches; `Entry` is the
    function that specifies it and that the lemmas about `Encode` use. It
    is a method of its own so that the loop's proof stays small.
  */
  method FieldLine(field: FieldInfo, ext: map<string, Value>) returns (line: string)
    requires Renders(field.typeName) && field.name in ext && Matches(field.typeName, ext[field.name])
    ensures line == Entry(field, ext)
  {
    var v := ext[field.name];
    if field.typeName == "string" {
      line := Label(field.name) + Quote(v.s);
    } else if field.typeName == "int64" {
      line := Label(field.name) + Decimal(v.i);
    } else {
      line := Label(field.name) + Quote(Hex(v.b));
    }
  }

  /** Extending the prefix `fields[..i]` by one field adds that field's entry, if it is rendered. */
  lemma EntriesOfPrefix(fields: seq<FieldInfo>, ext: map<string, Value>, i: nat)
    requires Typed(fields, ext) && i < |fields|
    ensures Typed(fields[..i], ext) && Typed(fields[..i + 1], ext)
    ensures Entries(fields[..i + 1], ext) ==
              if Renders(fields[i].typeName) then Entries(fields[..i], ext) + [Entry(fields[i], ext)]
              else Entries(fields[..i], ext)
  {
    assert fields[..i + 1][..i] == fields[..i];
  }

  /** The literal is braced, and is `{}` exactly when no field is rendered. */
  lemma {:induction false} EncodeShape(fields: seq<FieldInfo>, ext: map<string, Value>)
    requires Typed(fields, ext)
    ensures var out := Encode(fields, ext);
            |out| >= 2 && out[0] == '{' && out[|out| - 1] == '}' &&
            (out == "{}" <==> RenderedFields(fields) == []) &&
            (out == "{}" <==> forall f :: f in fields ==> !Renders(f.typeName))
  {
    var lines := Entries(fields, ext);
    EntriesMatchFields(fields, ext);
    NoneRendered(fields);
    if lines != [] {
      var kept := RenderedFields(fields);
      var last := lines[|lines| - 1];
      assert last == Entry(kept[|kept| - 1], ext);
      assert |Join(lines, ",\r\n")| > 0 by {
        if |lines| > 1 {
          assert Join(lines, ",\r\n") == Join(lines[..|lines| - 1], ",\r\n") + ",\r\n" + last;
        }
      }
      assert |Encode(fields, ext)| > 2;
    }
  }

  /** One entry per rendered field, each rendering that field, in declaration order. */
  lemma {:induction false} EntriesMatchFields(fields: seq<FieldInfo>, ext: map<string, Value>)
    requires Typed(fields, ext)
    ensures var lines, kept := Entries(fields, ext), RenderedFields(fields);
            |lines| == |kept| &&
            forall k :: 0 <= k < |kept| ==> kept[k].name in ext && lines[k] == Entry(kept[k], ext)
  {
    if fields != [] {
      var init := fields[..|fields| - 1];
      assert forall i :: 0 <= i < |init| ==> init[i] == fields[i];
      EntriesMatchFields(init, ext);
    }
  }

  /** A concatenation is typed exactly when both parts are. */
  lemma TypedAppend(a: seq<FieldInfo>, b: seq<FieldInfo>, ext: map<string, Value>)
    ensures Typed(a + b, ext) <==> Typed(a, ext) && Typed(b, ext)
  {
  }

  /** Rendering a concatenation renders each part in turn: entries keep declaration order. */
  lemma {:induction false} EntriesAppend(a: seq<FieldInfo>, b: seq<FieldInfo>, ext: map<string, Value>)
    requires Typed(a + b, ext)
    ensures Typed(a, ext) && Typed(b, ext)
    ensures Entries(a + b, ext) == Entries(a, ext) + Entries(b, ext)
  {
    TypedAppend(a, b, ext);
    if b != [] {
      var init := b[..|b| - 1];
      assert (a + b)[..|a + b| - 1] == a + init;
      TypedAppend(a, init, ext);
      assert (a + b)[|a + b| - 1] == b[|b| - 1];
      EntriesAppend(a, init, ext);
      assert Entries(a + b, ext) == Entries(a + init, ext) + Entries([b[|b| - 1]], ext) by {
        assert [b[|b| - 1]][..0] == [];
      }
      assert Entries(b, ext) == Entries(init, ext) + Entries([b[|b| - 1]], ext) by {
        assert [b[|b| - 1]][..0] == [];
      }
    } else {
      assert a + b == a;
    }
  }

  /** A field of any other type adds no entry and needs no value. */
  lemma {:induction false} UnrenderedFieldIgnored(a: seq<FieldInfo>, f: FieldInfo, b: seq<FieldInfo>,
                                                  ext: map<string, Value>)
    requires !Renders(f.typeName) && Typed(a + b, ext)
    ensures Typed(a + [f] + b, ext)
    ensures Entries(a + [f] + b, ext) == Entries(a + b, ext)
  {
    TypedAppend(a, b, ext);
    TypedAppend(a, [f], ext);
    TypedAppend(a + [f], b, ext);
    EntriesAppend(a, b, ext);
    EntriesAppend(a + [f], b, ext);
    EntriesAppend(a, [f], ext);
    assert Entries([f], ext) == [] by {
      assert [f][..0] == [];
    }
  }

  /** Reads a value back from the text after an entry's label, by the field's type name. */
  function DecodeValue(typeName: string, body: string): Option<Value> {
    if typeName == "int64" then
      match ParseDecimal(body)
      case Some(i) => Some(Int64(i))
      case None => None
    else if |body| >= 2 && body[0] == '"' && body[|body| - 1] == '"' then
      var inner := body[1..|body| - 1];
      if typeName == "string" then Some(Str(inner))
      else if typeName == "[]uint8" then
        match Unhex(inner)
        case Some(bs) => Some(Bytes(bs))
        case None => None
      else None
    else None
  }

  /**
    Every entry carries its field's value: a string verbatim between quotes,
    an int64 in decimal, bytes in lowercase hex between quotes.
  */
  lemma {:induction false} EntryRoundTrip(f: FieldInfo, ext: map<string, Value>)
    requires Renders(f.typeName) && f.name in ext && Matches(f.typeName, ext[f.name])
    ensures DecodeValue(f.typeName, Entry(f, ext)[|Label(f.name)|..]) == Some(ext[f.name])
  {
    var body := Entry(f, ext)[|Label(f.name)|..];
    var v := ext[f.name];
    if f.typeName == "string" {
      assert body == Quote(v.s);
      assert body[1..|body| - 1] == v.s;
    } else if f.typeName == "int64" {
      assert body == Decimal(v.i);
      ParseDecimalOfDecimal(v.i);
    } else {
      assert body == Quote(Hex(v.b));
      assert body[1..|body| - 1] == Hex(v.b);
      UnhexOfHex(v.b);
    }
  }

  const ExampleFields := [FieldInfo("amount", "int64"), FieldInfo("pub", "[]uint8")]
  const ExampleExtend := map["amount" := Int64(500), "pub" := Bytes([0xAB, 0xCD])]

  lemma ExampleEntries()
    ensures Typed(ExampleFields, ExampleExtend)
    ensures Entries(ExampleFields, ExampleExtend) == ["\"amount\": " + "500", "\"pub\": " + "\"abcd\""]
  {
    var fields, ext := ExampleFields, ExampleExtend;
    assert Typed(fields, ext) by {
      assert ext[fields[0].name] == Int64(500);
      assert ext[fields[1].name] == Bytes([0xAB, 0xCD]);
    }
    DecimalExample();
    HexExample();
    assert fields[..1] == [fields[0]] && fields[..1][..0] == [];
    ExampleLabels();
    assert Entry(fields[0], ext) == "\"amount\": " + "500";
    assert Entry(fields[1], ext) == "\"pub\": " + "\"abcd\"";
    assert Entries(fields[..1], ext) == [Entry(fields[0], ext)];
    assert Entries(fields, ext) == Entries(fields[..1], ext) + [Entry(fields[1], ext)];
  }

  /**
    An int64 amount of 500 and a byte-slice key 0xab 0xcd render as
    `{"amount": 500,\r\n"pub": "abcd"}`: declaration order, bare decimal,
    lowercase hex without a prefix.
  */
  lemma AmountAndKeyExample()
    ensures Typed(ExampleFields, ExampleExtend)
    ensures Encode(ExampleFields, ExampleExtend) == "{\"amount\": 500,\r\n\"pub\": \"abcd\"}"
  {
    ExampleEntries();
    var a, b := "\"amount\": " + "500", "\"pub\": " + "\"abcd\"";
    JoinPair(a, b, ",\r\n");
    ExampleBraces();
  }

  /**
    The labels and the quoted key of the worked example. This and
    `ExampleBraces` only spell out string literals; they are kept apart so
    that the example's proof does not compare long literals in a large context.
  */
  lemma ExampleLabels()
    ensures Label("amount") == "\"amount\": "
    ensures Label("pub") == "\"pub\": "
    ensures Quote("abcd") == "\"abcd\""
  {
  }

  /** The pieces of the worked example, spelled out as one literal. */
  lemma ExampleBraces()
    ensures "{" + ("\"amount\": " + "500" + ",\r\n" + ("\"pub\": " + "\"abcd\"")) + "}" ==
            "{\"amount\": 500,\r\n\"pub\": \"abcd\"}"
  {
  }
}
