/**
 * Logging helpers (debug.h): the log levels and their order, the error
 * counter filter, the compile-time file-name hash, and the values of the
 * `dd_assert` and `ld_catch` expressions.
 */
module Debug {
  import opened Wrappers

  /** `dbg::Level`, in declaration order: NONE < CRITICAL < ... < SPEW. */
  datatype Level = NONE | CRITICAL | ERROR | WARNING | NOTIFY | INFO | DEBUG | SPEW

  /** `dbg::Colored`. */
  datatype Colored = NONE | ALWAYS | AUTO | NEVER

  /** The underlying value of a level. */
  function Rank(l: Level): (r: nat)
    ensures r <= 7
    ensures r == 0 <==> l == Level.NONE
    ensures r == 7 <==> l == SPEW
  {
    match l
    case NONE => 0
    case CRITICAL => 1
    case ERROR => 2
    case WARNING => 3
    case NOTIFY => 4
    case INFO => 5
    case DEBUG => 6
    case SPEW => 7
  }

  predicate AtMost(a: Level, b: Level)
  {
    Rank(a) <= Rank(b)
  }

  /** noteError: whether the error counter hook is called for a message at `level`. */
  function NoteError(level: Level, hookSet: bool): (counted: bool)
    ensures counted <==> hookSet && AtMost(level, Level.INFO)
  {
    AtMost(level, Level.INFO) && hookSet
  }

  /** Messages below INFO in severity never reach the error counter. */
  lemma DebugAndSpewNeverCounted(hookSet: bool)
    ensures !NoteError(Level.DEBUG, hookSet) && !NoteError(Level.SPEW, hookSet)
    ensures hookSet ==> NoteError(Level.CRITICAL, hookSet) && NoteError(Level.INFO, hookSet)
  {
  }

  const TWO_TO_64: int := 0x1_0000_0000_0000_0000

  /** A byte of a C string as `char` reads it on a platform where `char` is signed. */
  function SignedChar(b: nat): (c: int)
    requires b < 256
    ensures -128 <= c < 128 && (c - b) % 256 == 0
  {
    if b < 128 then b else b - 256
  }

  predicate IsBytes(s: seq<nat>)
  {
    forall i :: 0 <= i < |s| ==> s[i] < 256
  }

  /**
   * const_hash over the bytes of a C string: the hash stops at the first
   * NUL, and each character is added (sign-extended) to 257 times the hash
   * of the rest, in 64-bit unsigned arithmetic.
   */
  function ConstHash(s: seq<nat>): (h: nat)
    requires IsBytes(s)
    ensures h < TWO_TO_64
  {
    if s == [] || s[0] == 0 then 0
    else (SignedChar(s[0]) + 257 * ConstHash(s[1..])) % TWO_TO_64
  }

  /** The same sum over unbounded integers, before any wrap-around. */
  function HashSum(s: seq<nat>): int
    requires IsBytes(s)
  {
    if s == [] || s[0] == 0 then 0
    else SignedChar(s[0]) + 257 * HashSum(s[1..])
  }

  /** Wrapping at every step gives the unbounded sum wrapped once. */
  lemma {:induction false} ConstHashIsSumModulo(s: seq<nat>)
    requires IsBytes(s)
    ensures ConstHash(s) == HashSum(s) % TWO_TO_64
  {
    if s != [] && s[0] != 0 {
      ConstHashIsSumModulo(s[1..]);
      var h := HashSum(s[1..]);
      var q := h / TWO_TO_64;
      assert h == q * TWO_TO_64 + ConstHash(s[1..]);
      assert SignedChar(s[0]) + 257 * h == SignedChar(s[0]) + 257 * ConstHash(s[1..]) + (257 * q) * TWO_TO_64;
      ModuloShift(SignedChar(s[0]) + 257 * ConstHash(s[1..]), 257 * q);
    }
  }

  lemma ModuloShift(a: int, k: int)
    ensures (a + k * TWO_TO_64) % TWO_TO_64 == a % TWO_TO_64
  {
  }

  /** Only the bytes before the terminating NUL are hashed. */
  lemma {:induction false} ConstHashStopsAtNul(s: seq<nat>, t: seq<nat>)
    requires IsBytes(s) && IsBytes(t) && 0 !in s
    ensures IsBytes(s + [0] + t) && ConstHash(s + [0] + t) == ConstHash(s)
    decreases |s|
  {
    if s != [] {
      assert (s + [0] + t)[1..] == s[1..] + [0] + t;
      ConstHashStopsAtNul(s[1..], t);
    }
  }

  /** The empty string hashes to 0; an ASCII character adds itself to 257 times the rest's hash. */
  lemma ConstHashStep(c: nat, s: seq<nat>)
    requires 0 < c < 128 && IsBytes(s)
    ensures ConstHash([]) == 0
    ensures IsBytes([c] + s) && ConstHash([c] + s) == (c + 257 * ConstHash(s)) % TWO_TO_64
  {
    assert ([c] + s)[1..] == s;
  }

  /**
   * The value of `dd_assert(condition, ...)`: the trigger always yields
   * false, so the expression is the condition; None when the failed check
   * aborts, which it does with assert-on-data set in a build with checks on.
   */
  function DdAssert(condition: bool, assertOnData: bool, checksEnabled: bool): (r: Option<bool>)
    ensures r.None? <==> !condition && assertOnData && checksEnabled
    ensures r.Some? ==> r.value == condition
  {
    if condition then Some(true)
    else if assertOnData && checksEnabled then None
    else Some(DdAssertTriggerImpl())
  }

  /** `DD_Assert_Trigger::impl`'s value when it returns. */
  function DdAssertTriggerImpl(): (r: bool)
    ensures !r
  {
    false
  }

  /** The value of `ld_catch(expr, ...)`: the truth of `expr`, or None when a failed catch aborts. */
  function LdCatch(expr: bool, abortOnFailedCatch: bool): (r: Option<bool>)
    ensures r.None? <==> !expr && abortOnFailedCatch
    ensures r.Some? ==> r.value == expr
  {
    if expr then Some(true)
    else if abortOnFailedCatch then None
    else Some(false)
  }
}
