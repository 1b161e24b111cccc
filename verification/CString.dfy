/** C characters and NUL-terminated strings, and the string functions of the kernel's
    own C library. */
module CString {

  /** A signed `char`. */
  type Char = c: int | -128 <= c < 128

  type Byte = b: nat | b < 256

  const NUL: Char := 0

  /** The code of an ASCII character. */
  function Code(c: char): Char
    requires c < 128 as char
  {
    c as int
  }

  function Ascii(s: string): (r: seq<Char>)
    requires forall i :: 0 <= i < |s| ==> s[i] < 128 as char
    ensures |r| == |s|
  {
    seq(|s|, i requires 0 <= i < |s| => Code(s[i]))
  }

  /** `memory` starts with the string `text` and its terminator. */
  ghost predicate Holds(memory: seq<Char>, text: seq<Char>) {
    |text| < |memory| && memory[..|text|] == text && memory[|text|] == 0 && 0 !in text
  }

  lemma EndOfString(memory: seq<Char>, text: seq<Char>, i: nat)
    requires Holds(memory, text) && i <= |text|
    ensures memory[i] == NUL <==> i == |text|
  {
    if i < |text| {
      assert memory[i] == text[i] && text[i] in text;
    }
  }

  /** Reads no further than the terminator. */
  method Strlen(str: seq<Char>, ghost text: seq<Char>) returns (len: nat)
    requires Holds(str, text)
    ensures len == |text|
  {
    len := 0;
    assert len < |text| ==> str[len] == text[len];
    while str[len] != NUL
      invariant len <= |text|
      invariant str[len] == NUL <==> len == |text|
      decreases |text| - len
    {
      len := len + 1;
      assert len < |text| ==> str[len] == text[len];
    }
  }

  /** One flat byte memory: the destination gets the source's old bytes and nothing
      else changes, however the ranges overlap. */
  method Memmove(memory: array<Byte>, dst: nat, src: nat, size: nat)
    requires dst + size <= memory.Length && src + size <= memory.Length
    modifies memory
    ensures memory[..] == old(memory[..dst] + memory[src..src + size] + memory[dst + size..])
  {
    ghost var was := memory[..];
    if dst < src {
      for i := 0 to size
        invariant forall k :: dst <= k < dst + i ==> memory[k] == was[src + (k - dst)]
        invariant forall k :: 0 <= k < memory.Length && !(dst <= k < dst + i) ==> memory[k] == was[k]
      {
        memory[dst + i] := memory[src + i];
      }
    } else {
      var i := size;
      while i != 0
        invariant 0 <= i <= size
        invariant forall k :: dst + i <= k < dst + size ==> memory[k] == was[src + (k - dst)]
        invariant forall k :: 0 <= k < memory.Length && !(dst + i <= k < dst + size) ==> memory[k] == was[k]
      {
        memory[dst + i - 1] := memory[src + i - 1];
        i := i - 1;
      }
    }
    Spliced(memory[..], was, dst, src, size);
  }

  lemma Spliced(now: seq<Byte>, was: seq<Byte>, dst: nat, src: nat, size: nat)
    requires |now| == |was| && dst + size <= |was| && src + size <= |was|
    requires forall k :: dst <= k < dst + size ==> now[k] == was[src + (k - dst)]
    requires forall k :: 0 <= k < |was| && !(dst <= k < dst + size) ==> now[k] == was[k]
    ensures now == was[..dst] + was[src..src + size] + was[dst + size..]
  {
  }
}
