/** `struct re_pattern_buffer`, as far as compiling, matching and searching use it. */
module PatternBuffers {
  import opened Bytes
  import opened Opcodes
  import opened WellFormed
  import opened MatchSpec

  class PatternBuffer {
    var buffer: array<byte>
    var used: nat
    var fastmap: array?<bool>
    var fastmapAccurate: bool
    var canBeNull: bool

    /** The pattern as it was compiled, and its entry points. */
    ghost var code: seq<byte>
    ghost var x: set<int>

    constructor (buffer: array<byte>, used: nat, fastmap: array?<bool>, ghost code: seq<byte>, ghost x: set<int>)
      ensures this.buffer == buffer && this.used == used && this.fastmap == fastmap && this.code == code && this.x == x
      ensures !fastmapAccurate
    {
      this.buffer, this.used, this.fastmap, this.code, this.x := buffer, used, fastmap, code, x;
      fastmapAccurate, canBeNull := false, false;
    }

    /** The buffer holds a compiled pattern, possibly changed by earlier matches. */
    ghost predicate Compiled()
      reads `buffer, `used, `code, `x, buffer
    {
      && used <= buffer.Length && |code| == used && WfProgram(code, x) && Closed(code, x)
      && Variant(buffer[..used], code, x)
    }

    /** What `re_compile_fastmap` needs besides. */
    ghost predicate Scannable()
      reads `buffer, `used, `code, `x, buffer
    {
      used <= buffer.Length && EndSafe(buffer[..], used, code, x)
    }
  }

  /** Behind a jump_past_alt that goes nowhere `re_compile_fastmap` looks at the next byte.  At the end of the program that
      byte is not part of it, and must not look like the start of a loop. */
  ghost predicate EndSafe(bytes: seq<byte>, used: nat, code: seq<byte>, x: set<int>) {
    NoLastJump(code, x, used) || (used < |bytes| && bytes[used] != ON_FAILURE_JUMP && bytes[used] != SUCCEED_N)
  }

  /** The entry points of a well-formed program are closed under its commands. */
  lemma ProgramClosed(code: seq<byte>, x: set<int>)
    requires WfProgram(code, x)
    ensures Closed(code, x)
  {
    hide WfAt, Span;
  }
}
