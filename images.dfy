/** Module images as the interpreter reads them. An image is host memory
    that the VM only reads; it is modelled by the records the source reads
    out of it rather than by its bytes, because the byte layout and the
    opcode numbering are defined in headers that are not part of this model.
    Field names follow src/mango.c. */
module Images {
  import opened Words

  /** A module name: 12 opaque bytes compared by exact equality. */
  type Name = s: seq<u8> | |s| == 12 witness seq(12, _ => 0)

  /** `image[0]` and `image[1]` must be these (src/mango.c:638). */
  const IMAGE_MAGIC: u8 := 255
  const VERSION_MAJOR: u8 := 0

  /** The size check of `mango_module_import` (src/mango.c:635) uses
      `sizeof(mango_module_def)`: attributes, import count, static size and
      initializer offset. */
  const MODULE_DEF_SIZE: nat := 6

  /** The code of a function starts right after its four descriptor bytes
      (attributes, max stack, argument count, local count). */
  const FUNC_DEF_SIZE: nat := 4

  /** Features an executable may require. An image can carry bits this VM
      does not know; those are never supported. */
  datatype Feature = I64 | F32 | F64 | Refs | UnknownFeature(bit: nat)

  /** `mango_features()` in the configuration modelled: every feature built in. */
  const SUPPORTED_FEATURES: set<Feature> := {I64, F32, F64, Refs}

  /** The host's flags to `mango_module_import` that the core reads. */
  datatype ImportFlags = ImportFlags(skipVerification: bool, trustedModule: bool)

  /** A function descriptor: security attributes and the three counts. */
  datatype FuncDef = FuncDef(securityCritical: bool, safeCritical: bool,
                             maxStack: u8, argCount: u8, locCount: u8)

  /** The record an executable image carries at its end. `halt` is the
      offset of its final byte, which must hold the HALT opcode. */
  datatype AppInfo = AppInfo(features: set<Feature>, stackSize: u16, moduleCount: u8,
                             main: u16, halt: u16)

  type Imports = s: seq<Name> | |s| < 256

  /** An image: the header bytes, the module descriptor (`attributes`,
      the import names, `initializer`), the application record, and the
      function descriptors and instructions found at byte offsets. */
  datatype Image = Image(magic: u8, version: u8, executable: bool, imports: Imports,
                         initializer: u16, app: AppInfo,
                         funcs: map<nat, FuncDef>, code: map<nat, Instr>) {
    function ImportCount(): u8 {
      |imports|
    }
  }

  // ---------------------------------------------------------------------
  // Instructions. Every opcode of the integer, stack, call, branch and
  // object families is one value here, with its immediate operands.

  type OpWidth = w: Width | w == W32 || w == W64 witness W32

  datatype BinOp = Add | Sub | Mul | Div | DivUn | Rem | RemUn | And | Or | Xor
  datatype ShiftOp = Shl | Shr | ShrUn
  datatype UnOp = Neg | Not
  datatype Cmp = Ceq | Cne | Cgt | CgtUn | Cge | CgeUn | Clt | CltUn | Cle | CleUn

  /** The C integer types a conversion or a load narrows to. */
  datatype IntType = Int8 | UInt8 | Int16 | UInt16 | Int32 | UInt32 {
    function Width(): Width {
      match this
      case Int8 | UInt8 => W8
      case Int16 | UInt16 => W16
      case Int32 | UInt32 => W32
    }
    predicate IsSigned() {
      Int8? || Int16? || Int32?
    }
    function Bytes(): nat {
      match this
      case Int8 | UInt8 => 1
      case Int16 | UInt16 => 2
      case Int32 | UInt32 => 4
    }
  }

  type SmallType = t: IntType | t.Int8? || t.UInt8? || t.Int16? || t.UInt16? witness Int8

  /** What a field or element load reads: a narrow integer widened to one
      cell (X32 is `Int(Int32)`), or two cells. */
  datatype LoadKind = Int(t: IntType) | X64

  /** Bytes written by STFLD_X8 .. STFLD_X64 and STELEM_X8 .. STELEM_X64. */
  datatype StoreWidth = S8 | S16 | S32 | S64 {
    function Bytes(): nat {
      match this
      case S8 => 1
      case S16 => 2
      case S32 => 4
      case S64 => 8
    }
  }

  /** The constants of LDC_I32_M1 .. LDC_I32_8. */
  type SmallConst = k: int | -1 <= k <= 8

  datatype Instr =
    | Halt | Nop | Break
    | PopX32 | PopX64 | DupX32 | DupX64 | Swap | Over | Rot | Nip | Tuck
    | LdlocX32(index: u8) | LdlocX64(index: u8) | Ldloca(index: u8)
    | StlocX32(index: u8) | StlocX64(index: u8)
    | Ret | RetX32 | RetX64
    | Call(slot: u8, target: u16) | Calli
    | Syscall(adjustment: i8, id: u16)
    | BrS(off8: i8) | BrfalseS(off8: i8) | BrtrueS(off8: i8)
    | Br(off16: i16) | Brfalse(off16: i16) | Brtrue(off16: i16)
    | LdcI32(k: SmallConst) | LdcI32S(imm8: i8) | LdcX32(imm32: u32) | LdcX64(lo: u32, hi: u32)
    | Ldftn(fslot: u8, ftarget: u16)
    | Binary(w: OpWidth, op: BinOp)
    | Shift(sw: OpWidth, sop: ShiftOp)
    | Unary(uw: OpWidth, uop: UnOp)
    | Compare(cw: OpWidth, cmp: Cmp)
    | Conv32(to: SmallType)              // CONV_I8_I32 .. CONV_U16_I32
    | ConvFrom64(to64: IntType)          // CONV_I8_I64 .. CONV_U32_I64
    | ConvTo64(signed: bool)             // CONV_I64_I32, CONV_U64_I32
    | Newobj(objSize: u16) | Newarr(elemSize: u16) | Slice1 | Slice2
    | Ldfld(kind: LoadKind, offset: u16) | Ldflda(aoffset: u16) | Stfld(width: StoreWidth, soffset: u16)
    | Ldelem(ekind: LoadKind) | Ldelema(esize: u16) | Stelem(ewidth: StoreWidth)
    | Unused(opcode: u8)                 // every UNUSEDnn slot
}
