/** Writing machine code into a buffer (RtlCopyMemory and stores through pointers). */
module CodeMemory {
  import opened Words

  /** `s` with `src` written over the elements from `at` on. */
  function Overwrite(s: seq<byte>, at: nat, src: seq<byte>): (r: seq<byte>)
    requires at + |src| <= |s|
    ensures |r| == |s|
    ensures forall k | 0 <= k < |s| :: r[k] == if at <= k < at + |src| then src[k - at] else s[k]
  {
    s[..at] + src + s[at + |src|..]
  }

  method RtlCopyMemory(dest: array<byte>, at: nat, src: seq<byte>)
    requires at + |src| <= dest.Length
    modifies dest
    ensures dest[..] == Overwrite(old(dest[..]), at, src)
  {
    var index := 0;
    while index < |src|
      invariant 0 <= index <= |src|
      invariant forall k | 0 <= k < dest.Length ::
                  dest[k] == if at <= k < at + index then src[k - at] else old(dest[k])
    {
      dest[at + index] := src[index];
      index := index + 1;
    }
  }

  lemma OverwriteTwice(s: seq<byte>, at: nat, src: seq<byte>, inner: nat, patch: seq<byte>)
    requires at + |src| <= |s| && inner + |patch| <= |src|
    ensures Overwrite(Overwrite(s, at, src), at + inner, patch) == Overwrite(s, at, Overwrite(src, inner, patch))
  {
  }

  // ---------- the five-byte jump ----------

  /** jmp target, placed at `from`. */
  function NearJump(from: nat, target: nat): (bytes: seq<byte>)
    requires FitsLong(target - (from + 5))
    ensures |bytes| == 5
  {
    [0xE9] + ToLE(Unsigned32(target - (from + 5)), 4)
  }

  lemma DispRead(v: int)
    requires FitsLong(v)
    ensures ReadLong(ToLE(Unsigned32(v), 4)) == v
  {
    Pow256Values();
    FromToLE(Unsigned32(v), 4);
  }

  /** Different targets make different jumps. */
  lemma JumpsDiffer(from: nat, a: nat, b: nat)
    requires FitsLong(a - (from + 5)) && FitsLong(b - (from + 5)) && a != b
    ensures NearJump(from, a) != NearJump(from, b)
  {
    hide ToLE, ReadLong;
    DispRead(a - (from + 5));
    DispRead(b - (from + 5));
    assert NearJump(from, a)[1..] == ToLE(Unsigned32(a - (from + 5)), 4);
    assert NearJump(from, b)[1..] == ToLE(Unsigned32(b - (from + 5)), 4);
  }
}
