/**
  The configuration record and `set_cache_param`.

  The simulator keeps its configuration in file-level variables that
  start from build-time defaults and are overwritten, one directive at a
  time, before the caches are initialised. Here the variables are one
  immutable record and each directive returns the updated record. The
  default branch of `set_cache_param`, which prints a message and ends
  the process, becomes a `Failure`.
 */
module Configuration {
  import opened Wrappers

  type Positive = n: int | n > 0 witness 1

  /** The build-time constants: default sizes in bytes, policies, and the word size in bytes. */
  datatype Defaults = Defaults(
    cacheSize: int,
    blockSize: int,
    assoc: int,
    writeBack: bool,
    writeAlloc: bool,
    wordSize: Positive)

  datatype Config = Config(
    /** separate instruction and data caches */
    split: bool,
    /** unified, instruction and data cache sizes, in bytes */
    usize: int,
    isize: int,
    dsize: int,
    /** block size in bytes, and in words */
    blockSize: int,
    wordsPerBlock: int,
    assoc: int,
    writeBack: bool,
    writeAlloc: bool,
    wordSize: Positive)

  /** C's `/` on `int`, which truncates toward zero. */
  function CDiv(a: int, b: Positive): (q: int)
    ensures 0 <= a ==> 0 <= q * b <= a < q * b + b
    ensures a < 0 ==> q * b - b < a <= q * b <= 0
  {
    if a >= 0 then
      QuotientBounds(a, b);
      a / b
    else
      QuotientBounds(-a, b);
      NegatedProduct((-a) / b, b);
      -((-a) / b)
  }

  /** For n >= 0, n / b is the largest multiple count of b not above n. */
  lemma QuotientBounds(n: int, b: Positive)
    requires n >= 0
    ensures 0 <= (n / b) * b <= n < (n / b) * b + b
  {
    var q := n / b;
    assert n == b * q + n % b;
    assert q * b == b * q;
  }

  lemma NegatedProduct(m: int, b: int)
    ensures (-m) * b == -(m * b)
  {
  }

  /** The configuration before any directive. */
  function Initial(d: Defaults): (c: Config)
    ensures !c.split && c.usize == d.cacheSize && c.isize == d.cacheSize && c.dsize == d.cacheSize
    ensures c.blockSize == d.blockSize && c.assoc == d.assoc && c.wordSize == d.wordSize
    ensures c.writeBack == d.writeBack && c.writeAlloc == d.writeAlloc
    ensures c.wordsPerBlock == CDiv(d.blockSize, d.wordSize)
  {
    Config(false, d.cacheSize, d.cacheSize, d.cacheSize, d.blockSize,
           CDiv(d.blockSize, d.wordSize), d.assoc, d.writeBack, d.writeAlloc, d.wordSize)
  }

  /** The parameter kinds; `Unknown` stands for every code outside the nine. */
  datatype Param =
    | BlockSize | UnifiedSize | InstructionSize | DataSize | Associativity
    | WriteBack | WriteThrough | WriteAllocate | NoWriteAllocate
    | Unknown(code: int)

  datatype ConfigError = BadParameter(code: int)

  predicate IsSizeParam(p: Param)
  {
    p.UnifiedSize? || p.InstructionSize? || p.DataSize?
  }

  predicate IsWritePolicyParam(p: Param)
  {
    p.WriteBack? || p.WriteThrough?
  }

  predicate IsAllocationParam(p: Param)
  {
    p.WriteAllocate? || p.NoWriteAllocate?
  }

  /** The parameters that carry a value, and the field of the record each one sets. */
  predicate IsValueParam(p: Param)
  {
    p.BlockSize? || p.UnifiedSize? || p.InstructionSize? || p.DataSize? || p.Associativity?
  }

  function FieldOf(c: Config, p: Param): int
    requires IsValueParam(p)
  {
    match p
    case BlockSize => c.blockSize
    case UnifiedSize => c.usize
    case InstructionSize => c.isize
    case DataSize => c.dsize
    case Associativity => c.assoc
  }

  /** `set_cache_param` */
  function SetCacheParam(c: Config, p: Param, value: int): (r: Result<Config, ConfigError>)
    ensures r.Failure? <==> p.Unknown?
    ensures r.Failure? ==> r.error == BadParameter(p.code)
    ensures r.Success? ==> r.value.wordSize == c.wordSize
    ensures r.Success? && IsValueParam(p) ==> FieldOf(r.value, p) == value
    ensures r.Success? ==> (r.value.split != c.split ==> IsSizeParam(p))
    ensures r.Success? && IsSizeParam(p) ==> r.value.split == !p.UnifiedSize?
    ensures r.Success? && IsWritePolicyParam(p) ==> r.value.writeBack == p.WriteBack?
    ensures r.Success? && IsAllocationParam(p) ==> r.value.writeAlloc == p.WriteAllocate?
    ensures r.Success? ==>
              r.value.wordsPerBlock == (if p.BlockSize? then CDiv(value, c.wordSize) else c.wordsPerBlock)
    // every field the parameter does not name keeps its value
    ensures r.Success? && !p.BlockSize? ==> r.value.blockSize == c.blockSize
    ensures r.Success? && !p.UnifiedSize? ==> r.value.usize == c.usize
    ensures r.Success? && !p.InstructionSize? ==> r.value.isize == c.isize
    ensures r.Success? && !p.DataSize? ==> r.value.dsize == c.dsize
    ensures r.Success? && !p.Associativity? ==> r.value.assoc == c.assoc
    ensures r.Success? && !IsWritePolicyParam(p) ==> r.value.writeBack == c.writeBack
    ensures r.Success? && !IsAllocationParam(p) ==> r.value.writeAlloc == c.writeAlloc
  {
    match p
    case BlockSize => Success(c.(blockSize := value, wordsPerBlock := CDiv(value, c.wordSize)))
    case UnifiedSize => Success(c.(split := false, usize := value))
    case InstructionSize => Success(c.(split := true, isize := value))
    case DataSize => Success(c.(split := true, dsize := value))
    case Associativity => Success(c.(assoc := value))
    case WriteBack => Success(c.(writeBack := true))
    case WriteThrough => Success(c.(writeBack := false))
    case WriteAllocate => Success(c.(writeAlloc := true))
    case NoWriteAllocate => Success(c.(writeAlloc := false))
    case Unknown(code) => Failure(BadParameter(code))
  }

  // ---------------------------------------------------------------------
  // Sequences of directives

  datatype Directive = Directive(param: Param, value: int)

  /** The directives in order; the first unknown parameter stops everything. */
  function ApplyAll(c: Config, ds: seq<Directive>): (r: Result<Config, ConfigError>)
    ensures r.Failure? <==> exists i :: 0 <= i < |ds| && ds[i].param.Unknown?
    ensures r.Success? ==> r.value.wordSize == c.wordSize
    decreases |ds|
  {
    if |ds| == 0 then Success(c)
    else
      var c' :- SetCacheParam(c, ds[0].param, ds[0].value);
      var r := ApplyAll(c', ds[1..]);
      assert forall i :: 0 < i < |ds| ==> ds[i] == ds[1..][i - 1];
      r
  }

  /** The last directive in `ds` whose parameter satisfies `sel`. */
  function LastOf(ds: seq<Directive>, sel: Param -> bool): Option<Directive>
    decreases |ds|
  {
    if |ds| == 0 then None
    else match LastOf(ds[1..], sel)
      case Some(d) => Some(d)
      case None => if sel(ds[0].param) then Some(ds[0]) else None
  }

  /**
    Last writer wins, for the value parameters: after a run of directives
    each field holds the value of the last directive that set it, or its
    old value when none did.
   */
  lemma {:induction false} LastValueWins(c: Config, ds: seq<Directive>, p: Param)
    requires IsValueParam(p) && ApplyAll(c, ds).Success?
    ensures FieldOf(ApplyAll(c, ds).value, p) ==
            match LastOf(ds, q => q == p)
            case Some(d) => d.value
            case None => FieldOf(c, p)
    decreases |ds|
  {
    if |ds| > 0 {
      var c' := SetCacheParam(c, ds[0].param, ds[0].value).value;
      LastValueWins(c', ds[1..], p);
    }
  }

  /** The cache organisation is decided by the last size directive. */
  lemma {:induction false} SplitFollowsLastSize(c: Config, ds: seq<Directive>)
    requires ApplyAll(c, ds).Success?
    ensures ApplyAll(c, ds).value.split ==
            match LastOf(ds, IsSizeParam)
            case Some(d) => !d.param.UnifiedSize?
            case None => c.split
    decreases |ds|
  {
    if |ds| > 0 {
      var c' := SetCacheParam(c, ds[0].param, ds[0].value).value;
      SplitFollowsLastSize(c', ds[1..]);
    }
  }

  /** The write and allocation policies are decided by the last directive of their pair. */
  lemma {:induction false} PoliciesFollowLastToggle(c: Config, ds: seq<Directive>)
    requires ApplyAll(c, ds).Success?
    ensures ApplyAll(c, ds).value.writeBack ==
            match LastOf(ds, IsWritePolicyParam)
            case Some(d) => d.param.WriteBack?
            case None => c.writeBack
    ensures ApplyAll(c, ds).value.writeAlloc ==
            match LastOf(ds, IsAllocationParam)
            case Some(d) => d.param.WriteAllocate?
            case None => c.writeAlloc
    decreases |ds|
  {
    if |ds| > 0 {
      var c' := SetCacheParam(c, ds[0].param, ds[0].value).value;
      PoliciesFollowLastToggle(c', ds[1..]);
    }
  }

  /** The block size in words always follows the block size in bytes. */
  lemma {:induction false} WordsPerBlockFollowsBlockSize(c: Config, ds: seq<Directive>)
    requires c.wordsPerBlock == CDiv(c.blockSize, c.wordSize)
    requires ApplyAll(c, ds).Success?
    ensures ApplyAll(c, ds).value.wordsPerBlock == CDiv(ApplyAll(c, ds).value.blockSize, c.wordSize)
    decreases |ds|
  {
    if |ds| > 0 {
      var c' := SetCacheParam(c, ds[0].param, ds[0].value).value;
      WordsPerBlockFollowsBlockSize(c', ds[1..]);
    }
  }

  /** Setting the same parameter twice is setting it once, to the second value. */
  lemma SetTwice(c: Config, p: Param, v1: int, v2: int)
    requires !p.Unknown?
    ensures SetCacheParam(SetCacheParam(c, p, v1).value, p, v2) == SetCacheParam(c, p, v2)
  {
  }

  /** Each toggle directive overrides its partner. */
  lemma TogglesOverride(c: Config, v1: int, v2: int)
    ensures SetCacheParam(SetCacheParam(c, WriteBack, v1).value, WriteThrough, v2)
            == SetCacheParam(c, WriteThrough, v2)
    ensures SetCacheParam(SetCacheParam(c, WriteThrough, v1).value, WriteBack, v2)
            == SetCacheParam(c, WriteBack, v2)
    ensures SetCacheParam(SetCacheParam(c, WriteAllocate, v1).value, NoWriteAllocate, v2)
            == SetCacheParam(c, NoWriteAllocate, v2)
    ensures SetCacheParam(SetCacheParam(c, NoWriteAllocate, v1).value, WriteAllocate, v2)
            == SetCacheParam(c, WriteAllocate, v2)
  {
  }
}
