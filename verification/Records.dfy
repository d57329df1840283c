/**
  The catalog's record types, the errors the services report, and the pure
  helpers every other module shares: 64-bit wrap-around, device paths and the
  normalisation of a create request.
 */
module Records {

  datatype Option<+T> = None | Some(value: T)

  datatype Result<+T> = Ok(value: T) | Err(error: Error) {
    predicate IsFailure() {
      Err?
    }

    function PropagateFailure<U>(): Result<U>
      requires Err?
    {
      Err(error)
    }

    function Extract(): T
      requires Ok?
    {
      value
    }
  }

  datatype Error =
    | InvalidInput
    | NotFound
    | AlreadyExists
    | DomainNotFound
    | HasAttachments
    | LockFailed
    | StoreFailed
    | LvmFailed
    | ImageFailed
    | LibvirtFailed
    | LineTooLong

  /** `store.ProvisionMode` is an open integer type; `Unknown` stands for every other code. */
  datatype Mode = Unspecified | Thick | Thin | Unknown(code: int)

  datatype DiskRecord = DiskRecord(
    name: string, vg: string, mode: Mode, size: nat, virtualSize: nat,
    devicePath: string, createdOn: string)

  datatype AttachmentRecord = AttachmentRecord(
    disk: string, vm: string, host: string, target: string)

  /** A logical volume is identified by its volume group and its name. */
  datatype Lv = Lv(vg: string, name: string)

  /** The LV a disk record speaks of. */
  function LvOf(r: DiskRecord): Lv {
    Lv(r.vg, r.name)
  }

  const U64: nat := 0x1_0000_0000_0000_0000

  /** Up to this size a percent extend of at most 1000 percent never wraps. */
  const MAX_EXACT: nat := (U64 - 1) / 1000

  /** The value a Go `uint64` keeps of a mathematical result. */
  function Wrap(n: nat): (w: nat)
    ensures w < U64 && w <= n
    ensures n < U64 ==> w == n
  {
    n % U64
  }

  /** The size `ExtendByPercent` records, with every `uint64` operation wrapping. */
  function PercentExtended(size: nat, percent: nat): nat {
    Wrap(size + Wrap(size * percent) / 100)
  }

  /** What an extend asks for. */
  datatype Amount = Absolute(bytes: nat) | Delta(bytes: nat) | Percent(percent: nat)

  /** Both `ExtendDisk` and `ExtendByPercent` refuse to extend by nothing. */
  predicate AsksForNothing(a: Amount) {
    match a case Absolute(b) => b == 0 case Delta(b) => b == 0 case Percent(p) => p == 0
  }

  lemma AsksForNothingIff(a: Amount)
    ensures AsksForNothing(a) <==> a == Absolute(0) || a == Delta(0) || a == Percent(0)
  {
  }

  /** The size an extend writes into its copy of the record, in `uint64` arithmetic. */
  function NewSize(size: nat, amount: Amount): nat {
    match amount
    case Absolute(b) => b
    case Delta(b) => Wrap(size + b)
    case Percent(p) => PercentExtended(size, p)
  }

  /** The absolute size, or the old size plus the delta or the rounded-down percentage, in `uint64` arithmetic. */
  lemma NewSizeIs(size: nat, amount: Amount)
    ensures amount.Absolute? ==> NewSize(size, amount) == amount.bytes
    ensures amount.Delta? ==> NewSize(size, amount) == (size + amount.bytes) % U64
    ensures amount.Percent? ==> NewSize(size, amount) == (size + (size * amount.percent % U64) / 100) % U64
  {
  }

  /** The size `lvextend` is asked to reach, given the LV's own size. */
  function Requested(size: nat, amount: Amount): nat {
    match amount
    case Absolute(b) => b
    case Delta(b) => size + b
    case Percent(p) => size + size * p / 100
  }

  /** lvextend rounds up to whole extents and refuses an absolute size that does not grow the LV. */
  predicate LvExtends(size: nat, amount: Amount, newSize: nat) {
    newSize >= Requested(size, amount) && (amount.Absolute? ==> amount.bytes > size)
  }

  /** The conventional block device path of an LV. */
  function DevicePath(vg: string, name: string): string {
    "/dev/" + vg + "/" + name
  }

  /** Characters that `normaliseCreate` refuses in a disk name. */
  predicate ForbiddenChar(c: char) {
    c == ' ' || c == '/' || c == '\\' || c == '\t' || c == '\n'
  }

  predicate ValidName(name: string) {
    name != "" && forall i | 0 <= i < |name| :: !ForbiddenChar(name[i])
  }

  /** A name is not empty and holds no blank, slash, backslash, tab or newline. */
  lemma ValidNameIff(name: string)
    ensures ValidName(name) <==>
            && name != "" && ' ' !in name && '/' !in name && '\\' !in name && '\t' !in name && '\n' !in name
  {
  }

  datatype CreateInput = CreateInput(
    name: string, vg: string, mode: Mode, size: nat, virtualSize: nat)

  /** Fills in the service defaults and rejects requests that cannot be served. */
  function NormaliseCreate(input: CreateInput, defaultVg: string, defaultThin: nat): (r: Result<CreateInput>)
    ensures r.Ok? ==>
              && ValidName(r.value.name) && r.value.name == input.name
              && r.value.vg != ""
              && r.value.size > 0 && r.value.virtualSize > 0
              && (r.value.mode == Thick || (r.value.mode == Thin && r.value.size < r.value.virtualSize))
    ensures r.Err? ==> r.error == InvalidInput
    ensures r.Ok? <==>
              var thin := input.mode == Thin;
              var size := if thin && input.size == 0 then defaultThin else input.size;
              && ValidName(input.name) && (input.vg != "" || defaultVg != "")
              && !input.mode.Unknown? && size > 0 && (thin ==> size < input.virtualSize)
    ensures r.Ok? ==>
              && r.value.vg == (if input.vg != "" then input.vg else defaultVg)
              && (r.value.mode == Thin <==> input.mode == Thin)
              && (input.size > 0 ==> r.value.size == input.size)
              && (input.size == 0 ==> r.value.size == defaultThin)
              && (input.virtualSize > 0 ==> r.value.virtualSize == input.virtualSize)
              && (input.virtualSize == 0 ==> r.value.virtualSize == input.size)
  {
    if !ValidName(input.name) then Err(InvalidInput)
    else
      var vg := if input.vg == "" then defaultVg else input.vg;
      if vg == "" then Err(InvalidInput)
      else
        match input.mode
        case Unknown(_) => Err(InvalidInput)
        case Thin =>
          var size := if input.size == 0 then defaultThin else input.size;
          if input.virtualSize == 0 || size == 0 || size >= input.virtualSize then Err(InvalidInput)
          else Ok(CreateInput(input.name, vg, Thin, size, input.virtualSize))
        case _ =>
          if input.size == 0 then Err(InvalidInput)
          else
            var virt := if input.virtualSize == 0 then input.size else input.virtualSize;
            Ok(CreateInput(input.name, vg, Thick, input.size, virt))
  }

  /** Normalising what was already normalised changes nothing, whatever the defaults. */
  lemma NormaliseIdempotent(input: CreateInput, vg: string, thin: nat, vg': string, thin': nat)
    requires NormaliseCreate(input, vg, thin).Ok?
    ensures NormaliseCreate(NormaliseCreate(input, vg, thin).value, vg', thin')
         == NormaliseCreate(input, vg, thin)
  {
  }

  /** The record `CreateDisk` persists for a normalised request. */
  function RecordFor(input: CreateInput, node: string): DiskRecord {
    DiskRecord(input.name, input.vg, input.mode, input.size, input.virtualSize,
               DevicePath(input.vg, input.name), node)
  }

  predicate NoSlash(s: string) {
    '/' !in s
  }

  /** Of two splits of one string at the same separator, the one that splits
      later keeps a separator in the other's tail and has the other's head as a
      prefix of its own. */
  lemma LaterSplit(c: char, a1: string, b1: string, a2: string, b2: string)
    requires a1 + [c] + b1 == a2 + [c] + b2
    requires |a1| < |a2|
    ensures c in b1 && c in a2
  {
    var s := a1 + [c] + b1;
    assert s[|a2|] == c && s[|a1|] == c;
    assert s[|a2|] == b1[|a2| - |a1| - 1];
    assert s[|a1|] == a2[|a1|];
  }

  /** Equally long heads make two splits of one string equal. */
  lemma SameSplit(c: char, a1: string, b1: string, a2: string, b2: string)
    requires a1 + [c] + b1 == a2 + [c] + b2
    requires |a1| == |a2|
    ensures a1 == a2 && b1 == b2
  {
    var s := a1 + [c] + b1;
    assert s[..|a1|] == a1 && s[..|a2|] == a2;
    assert s[|a1| + 1..] == b1 && s[|a2| + 1..] == b2;
  }

  /** A separator absent from both heads, or from both tails, splits uniquely. */
  lemma UniqueSplit(c: char, a1: string, b1: string, a2: string, b2: string)
    requires a1 + [c] + b1 == a2 + [c] + b2
    requires (c !in a1 && c !in a2) || (c !in b1 && c !in b2)
    ensures a1 == a2 && b1 == b2
  {
    if |a1| < |a2| {
      LaterSplit(c, a1, b1, a2, b2);
      assert false;
    }
    if |a2| < |a1| {
      LaterSplit(c, a2, b2, a1, b1);
      assert false;
    }
    SameSplit(c, a1, b1, a2, b2);
  }

  /** Disk names hold no slash, so a device path names one LV only. */
  lemma DevicePathInjective(vg1: string, name1: string, vg2: string, name2: string)
    requires NoSlash(name1) && NoSlash(name2)
    requires DevicePath(vg1, name1) == DevicePath(vg2, name2)
    ensures vg1 == vg2 && name1 == name2
  {
    assert DevicePath(vg1, name1)[5..] == vg1 + ['/'] + name1;
    assert DevicePath(vg2, name2)[5..] == vg2 + ['/'] + name2;
    UniqueSplit('/', vg1, name1, vg2, name2);
  }
}
