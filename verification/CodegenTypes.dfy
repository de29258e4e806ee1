/** packages/codegen/src/render-types.ts in the bcs format: which datatypes the rendering of a type
    reports to onDependency, and when it throws. */
module CodegenTypes {
  import opened Results

  datatype ModuleId = ModuleId(address: string, name: string)

  datatype Type =
    | Primitive(name: string)          // address, bool and the integers
    | Signer
    | Placeholder                      // _
    | Datatype(mod: ModuleId, name: string, arguments: seq<TypeArgument>)
    | Vector(element: Type)
    | Reference(target: Type)
    | TypeParameter(index: nat)
    | NamedTypeParameter(name: string)
    | TupleType(types: seq<Type>)
    | FunctionType(parameters: seq<Type>, result: Type)

  datatype TypeArgument = TypeArgument(phantom: bool, argument: Type)

  datatype Struct = Struct(typeParameters: seq<Option<string>>, fields: seq<Type>)
  datatype EnumType = EnumType(typeParameters: seq<Option<string>>, variants: seq<seq<Type>>)
  datatype Function = Function(isPublic: bool, isMacro: bool)

  /** A module summary; the lists of pairs are the source's records. */
  datatype Summary = Summary(
    id: ModuleId,
    structs: seq<(string, Struct)>,
    enums: seq<(string, EnumType)>,
    functions: seq<Function>)

  type AddressMapping = map<string, string>

  function Resolve(mapping: AddressMapping, address: string): string {
    if address in mapping then mapping[address] else address
  }

  /** normalizeSuiAddress of 0x1 and 0x2. */
  const MOVE_STDLIB_ADDRESS := "0x" + Zeros(63) + "1"
  const SUI_FRAMEWORK_ADDRESS := "0x" + Zeros(63) + "2"

  function Zeros(n: nat): (r: string)
    ensures |r| == n && forall i :: 0 <= i < n ==> r[i] == '0'
  {
    seq(n, _ => '0')
  }

  /** A datatype as onDependency gets it, with its address not resolved. */
  datatype Dependency = Dependency(mod: ModuleId, name: string)

  /** What a rendering reports, in order, and whether it ends without an exception. */
  datatype Report = Report(dependencies: seq<Dependency>, ok: bool)

  function Then(first: Report, second: Report): Report {
    if first.ok then Report(first.dependencies + second.dependencies, second.ok) else first
  }

  predicate IsString(mapping: AddressMapping, t: Type)
    requires t.Datatype?
  {
    && Resolve(mapping, t.mod.address) == MOVE_STDLIB_ADDRESS
    && (t.mod.name == "ascii" || t.mod.name == "string") && t.name == "String"
  }

  predicate IsOption(mapping: AddressMapping, t: Type)
    requires t.Datatype?
  {
    Resolve(mapping, t.mod.address) == MOVE_STDLIB_ADDRESS && t.mod.name == "option" && t.name == "Option"
  }

  predicate IsObjectId(mapping: AddressMapping, t: Type)
    requires t.Datatype?
  {
    Resolve(mapping, t.mod.address) == SUI_FRAMEWORK_ADDRESS && t.mod.name == "object" && t.name == "ID"
  }

  function RenderType(mapping: AddressMapping, parameters: seq<Option<string>>, t: Type): Report
    decreases t, 1
  {
    match t
    case Primitive(_) => Report([], true)
    case Signer => Report([], false)
    case Placeholder => Report([], false)
    case Datatype(_, _, _) => RenderDatatype(mapping, parameters, t)
    case Reference(target) => RenderType(mapping, parameters, target)
    case Vector(element) => RenderType(mapping, parameters, element)
    case TypeParameter(_) => Report([], true)
    case NamedTypeParameter(name) => Report([], Some(name) in parameters)
    case TupleType(_) => Report([], false)
    case FunctionType(_, _) => Report([], false)
  }

  function RenderDatatype(mapping: AddressMapping, parameters: seq<Option<string>>, t: Type): Report
    requires t.Datatype?
    decreases t, 0
  {
    if IsString(mapping, t) then Report([], true)
    else if IsOption(mapping, t) then
      if t.arguments == [] then Report([], false) else RenderType(mapping, parameters, t.arguments[0].argument)
    else if IsObjectId(mapping, t) then Report([], true)
    else Then(Report([Dependency(t.mod, t.name)], true), RenderArguments(mapping, parameters, t.arguments))
  }

  function RenderArguments(mapping: AddressMapping, parameters: seq<Option<string>>, arguments: seq<TypeArgument>)
    : Report
    decreases arguments, 0
  {
    if arguments == [] then Report([], true)
    else
      assert arguments decreases to arguments[0];
      var first := if arguments[0].phantom then Report([], true)
          else RenderType(mapping, parameters, arguments[0].argument);
      Then(first, RenderArguments(mapping, parameters, arguments[1..]))
  }

  // ---------- The datatypes a type refers to ----------

  /** The normal form of an address of one digit: 0x and 64 digits. */
  ghost predicate OneDigit(address: string, digit: char) {
    && |address| == 66 && address[0] == '0' && address[1] == 'x' && address[65] == digit
    && forall i :: 2 <= i < 65 ==> address[i] == '0'
  }

  /** A datatype of a module at an address of one digit. */
  ghost predicate Lives(mapping: AddressMapping, t: Type, digit: char, mod: string, name: string)
    requires t.Datatype?
  {
    && OneDigit(if t.mod.address in mapping then mapping[t.mod.address] else t.mod.address, digit)
    && t.mod.name == mod && t.name == name
  }

  lemma SpecialTypes(mapping: AddressMapping, t: Type)
    requires t.Datatype?
    ensures IsString(mapping, t) <==>
        Lives(mapping, t, '1', "ascii", "String") || Lives(mapping, t, '1', "string", "String")
    ensures IsOption(mapping, t) <==> Lives(mapping, t, '1', "option", "Option")
    ensures IsObjectId(mapping, t) <==> Lives(mapping, t, '2', "object", "ID")
  {
    var address := Resolve(mapping, t.mod.address);
    NormalAddress(address, MOVE_STDLIB_ADDRESS, '1');
    NormalAddress(address, SUI_FRAMEWORK_ADDRESS, '2');
    hide OneDigit;
  }

  lemma NormalAddress(address: string, special: string, digit: char)
    requires special == "0x" + Zeros(63) + [digit]
    ensures address == special <==> OneDigit(address, digit)
  {
    assert special[0] == '0' && special[1] == 'x';
    assert forall i :: 2 <= i < 65 ==> special[i] == Zeros(63)[i - 2];
    if OneDigit(address, digit) {
      assert forall i :: 0 <= i < 66 ==> address[i] == special[i];
    }
  }

  /** Whether the emitted code for a type names a datatype: the type is that datatype and has no
      rendering of its own, or the datatype occurs where the code descends: into the target of a
      reference, an element, the argument of an option, or a non-phantom argument. */
  ghost predicate RefersTo(mapping: AddressMapping, t: Type, d: Dependency)
    decreases t
  {
    match t
    case Vector(element) => RefersTo(mapping, element, d)
    case Reference(target) => RefersTo(mapping, target, d)
    case Datatype(mod, name, arguments) =>
      if Lives(mapping, t, '1', "ascii", "String") || Lives(mapping, t, '1', "string", "String")
          || Lives(mapping, t, '2', "object", "ID") then false
      else if Lives(mapping, t, '1', "option", "Option") then
        arguments != [] && RefersTo(mapping, arguments[0].argument, d)
      else
        || d == Dependency(mod, name)
        || exists i :: 0 <= i < |arguments| && !arguments[i].phantom && RefersTo(mapping, arguments[i].argument, d)
    case _ => false
  }

  /** Whether the emitted code for a type exists: wherever the code descends there is no signer, macro
      placeholder, tuple or function, every named type parameter is one of the declaration's, and
      every option has an argument. */
  ghost predicate Renders(mapping: AddressMapping, parameters: seq<Option<string>>, t: Type)
    decreases t
  {
    match t
    case Primitive(_) => true
    case TypeParameter(_) => true
    case NamedTypeParameter(name) => exists i :: 0 <= i < |parameters| && parameters[i] == Some(name)
    case Vector(element) => Renders(mapping, parameters, element)
    case Reference(target) => Renders(mapping, parameters, target)
    case Datatype(mod, name, arguments) =>
      if Lives(mapping, t, '1', "ascii", "String") || Lives(mapping, t, '1', "string", "String")
          || Lives(mapping, t, '2', "object", "ID") then true
      else if Lives(mapping, t, '1', "option", "Option") then
        arguments != [] && Renders(mapping, parameters, arguments[0].argument)
      else forall i :: 0 <= i < |arguments| && !arguments[i].phantom ==>
        Renders(mapping, parameters, arguments[i].argument)
    case _ => false
  }

  lemma {:induction false} RenderSucceedsExactly(mapping: AddressMapping, parameters: seq<Option<string>>, t: Type)
    ensures RenderType(mapping, parameters, t).ok <==> Renders(mapping, parameters, t)
    decreases t, 1
  {
    match t {
      case Vector(element) => RenderSucceedsExactly(mapping, parameters, element);
      case Reference(target) => RenderSucceedsExactly(mapping, parameters, target);
      case Datatype(mod, name, arguments) =>
        SpecialTypes(mapping, t);
        hide Lives, IsString, IsOption, IsObjectId;
        if IsOption(mapping, t) && arguments != [] {
          RenderSucceedsExactly(mapping, parameters, arguments[0].argument);
        }
        ArgumentsSucceedExactly(mapping, parameters, arguments);
      case _ =>
    }
  }

  lemma {:induction false} ArgumentsSucceedExactly(mapping: AddressMapping, parameters: seq<Option<string>>,
                                                   arguments: seq<TypeArgument>)
    ensures RenderArguments(mapping, parameters, arguments).ok <==>
        forall i :: 0 <= i < |arguments| && !arguments[i].phantom ==>
          Renders(mapping, parameters, arguments[i].argument)
    decreases arguments, 0
  {
    hide RenderType, Renders;
    if arguments != [] {
      assert arguments decreases to arguments[0];
      var rest := arguments[1..];
      if !arguments[0].phantom {
        RenderSucceedsExactly(mapping, parameters, arguments[0].argument);
      }
      ArgumentsSucceedExactly(mapping, parameters, rest);
      assert forall i :: 0 <= i < |rest| ==> rest[i] == arguments[i + 1];
      assert forall i :: 1 <= i < |arguments| ==> arguments[i] == rest[i - 1];
    }
  }

  /** A rendering that succeeds has reported exactly the datatypes that the type refers to. */
  lemma {:induction false} RenderReportsReferences(mapping: AddressMapping, parameters: seq<Option<string>>, t: Type,
                                                   d: Dependency)
    requires RenderType(mapping, parameters, t).ok
    ensures d in RenderType(mapping, parameters, t).dependencies <==> RefersTo(mapping, t, d)
    decreases t, 1
  {
    match t {
      case Vector(element) => RenderReportsReferences(mapping, parameters, element, d);
      case Reference(target) => RenderReportsReferences(mapping, parameters, target, d);
      case Datatype(mod, name, arguments) =>
        SpecialTypes(mapping, t);
        hide Lives, IsString, IsOption, IsObjectId;
        if IsString(mapping, t) {
        } else if IsOption(mapping, t) {
          RenderReportsReferences(mapping, parameters, arguments[0].argument, d);
        } else if !IsObjectId(mapping, t) {
          ArgumentsReportReferences(mapping, parameters, arguments, d);
        }
      case _ =>
    }
  }

  lemma {:induction false} ArgumentsReportReferences(mapping: AddressMapping, parameters: seq<Option<string>>,
                                                     arguments: seq<TypeArgument>, d: Dependency)
    requires RenderArguments(mapping, parameters, arguments).ok
    ensures d in RenderArguments(mapping, parameters, arguments).dependencies
       <==> exists i :: 0 <= i < |arguments| && !arguments[i].phantom && RefersTo(mapping, arguments[i].argument, d)
    decreases arguments, 0
  {
    hide RenderType, RefersTo;
    if arguments != [] {
      assert arguments decreases to arguments[0];
      var rest := arguments[1..];
      if !arguments[0].phantom {
        RenderReportsReferences(mapping, parameters, arguments[0].argument, d);
      }
      ArgumentsReportReferences(mapping, parameters, rest, d);
      if d in RenderArguments(mapping, parameters, rest).dependencies {
        var i :| 0 <= i < |rest| && !rest[i].phantom && RefersTo(mapping, rest[i].argument, d);
        assert arguments[i + 1] == rest[i];
      }
      if i :| 0 <= i < |arguments| && !arguments[i].phantom && RefersTo(mapping, arguments[i].argument, d) {
        assert i > 0 ==> rest[i - 1] == arguments[i];
      }
    }
  }
}
