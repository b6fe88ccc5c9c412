/**
 CRawCache: a byte queue in one block of a memory pool, with the data anywhere
 in the block.
 */
module RawCache {
  import opened Basics

  /** The range of an unsigned int. */
  const RANGE: nat := 0x1_0000_0000

  // ----- which branch append takes -------------------------------------------

  datatype Branch = InPlace | Regrow | Compact

  /** The two tests of append, on 32-bit sums. */
  function BranchOf(n: nat, head: nat, len: nat, block: nat): Branch {
    if (n + head + len) % RANGE <= block then InPlace
    else if (n + len) % RANGE > block then Regrow
    else Compact
  }

  /** The branch has room for the data exactly if the first sum does not wrap around. */
  lemma BranchFits(n: nat, head: nat, len: nat, block: nat)
    requires n < RANGE && head + len <= block < RANGE
    ensures (match BranchOf(n, head, len, block)
             case InPlace => head + len + n <= block
             case Regrow => n + len < RANGE && block < n + len
             case Compact => n + len <= block && head > 0)
            <==> n + head + len < RANGE
  {
    var sum := n + head + len;
    if sum < RANGE {
      assert sum % RANGE == sum && (n + len) % RANGE == n + len;
    } else {
      assert sum % RANGE == sum - RANGE;
    }
  }

  /** Data whose length wraps the sum around: append takes a block of 64 bytes for large enough. */
  lemma WrappedSum()
    ensures BranchOf(RANGE - 1, 0, 1, 64) == InPlace && 0 + 1 + (RANGE - 1) > 64
  {
  }

  // ----- the queue -----------------------------------------------------------

  datatype Op<T> = Append(data: seq<T>) | Skip(n: nat)

  function Min(a: nat, b: nat): nat { if a <= b then a else b }

  function Step<T>(q: seq<T>, op: Op<T>): seq<T> {
    match op
    case Append(data) => q + data
    case Skip(n) => q[Min(n, |q|)..]
  }

  function Steps<T>(q: seq<T>, ops: seq<Op<T>>): seq<T>
    decreases |ops|
  {
    if ops == [] then q else Steps(Step(q, ops[0]), ops[1..])
  }

  /** Everything that was appended. */
  function Sent<T>(ops: seq<Op<T>>): seq<T> {
    if ops == [] then [] else (if ops[0].Append? then ops[0].data else []) + Sent(ops[1..])
  }

  /** What is in the queue is the end of what was put in, in order. */
  lemma {:induction false} InOrder<T>(q: seq<T>, ops: seq<Op<T>>) returns (k: nat)
    ensures k <= |q + Sent(ops)| && Steps(q, ops) == (q + Sent(ops))[k..]
    decreases |ops|
  {
    if ops == [] {
      k := 0;
      assert q + Sent(ops) == q;
    } else {
      var next := Step(q, ops[0]);
      var rest := Sent(ops[1..]);
      k := InOrder(next, ops[1..]);
      if ops[0].Append? {
        assert q + (ops[0].data + rest) == next + rest;
      } else {
        var m := Min(ops[0].n, |q|);
        assert Sent(ops) == rest;
        SkipThen(q, rest, m, k);
        k := m + k;
      }
    }
  }

  lemma SkipThen<T>(q: seq<T>, rest: seq<T>, m: nat, k: nat)
    requires m <= |q| && k <= |q[m..] + rest|
    ensures m + k <= |q + rest| && (q[m..] + rest)[k..] == (q + rest)[m + k..]
  {
    assert (q + rest)[m..] == q[m..] + rest;
  }

  // ----- the cache -----------------------------------------------------------

  class RawCache<T(0)> {
    var mem: array?<T>
    var blockSize: nat
    var head: nat
    var len: nat
    /** Blocks taken from the pool and blocks given back. */
    var taken: nat
    var returned: nat

    ghost predicate Valid()
      reads this
    {
      && (mem == null ==> len == 0)
      && (mem != null ==> mem.Length == blockSize < RANGE && head + len <= blockSize)
      && taken == returned + (if mem == null then 0 else 1)
    }

    ghost function Contents(): seq<T>
      reads this, mem
      requires Valid()
    {
      if mem == null then [] else mem[head..head + len]
    }

    constructor ()
      ensures Valid() && Contents() == [] && mem == null
    {
      mem, blockSize, head, len := null, 0, 0, 0;
      taken, returned := 0, 0;
    }

    /** data(): where the first byte is, if there is one. */
    method Data() returns (r: Option<nat>)
      requires Valid()
      ensures r.None? <==> Contents() == []
      ensures r.Some? ==> mem != null && r.value < mem.Length && mem[r.value] == Contents()[0]
    {
      if len == 0 { return None; }
      r := Some(head);
    }

    /** memcpy of `data` to the block. */
    method Copy(a: array<T>, at: nat, data: seq<T>)
      requires at + |data| <= a.Length
      modifies a
      ensures a[..at] == old(a[..at]) && a[at..at + |data|] == data
    {
      for i := 0 to |data|
        invariant a[..at] == old(a[..at]) && a[at..at + i] == data[..i]
      {
        a[at + i] := data[i];
      }
    }

    /** memmove of the data to the head of the block. */
    method MoveDown(a: array<T>, from: nat, n: nat)
      requires from + n <= a.Length
      modifies a
      ensures a[..n] == old(a[from..from + n])
    {
      for i := 0 to n
        invariant forall k :: 0 <= k < i ==> a[k] == old(a[..])[from + k]
        invariant forall k :: i <= k < a.Length ==> a[k] == old(a[..])[k]
      {
        a[i] := a[from + i];
      }
    }

    /** The block a cache without one starts with, or the larger one it moves to. */
    method MoveTo(size: nat, data: seq<T>)
      requires Valid() && |data| + len <= size < RANGE
      modifies this
      ensures Valid() && mem != null && fresh(mem) && Contents() == old(Contents()) + data
    {
      ghost var was := Contents();
      var block := new T[size];
      if mem != null {
        Copy(block, 0, mem[head..head + len]);
        returned := returned + 1;
      }
      assert block[..len] == was;
      Copy(block, len, data);
      ghost var b := block[..];
      assert b[..len] == was && b[len..len + |data|] == data;
      Joined(b, was, data);
      mem, blockSize, taken := block, size, taken + 1;
      head := 0;
      len := len + |data|;
    }

    /** The data fits behind what is there. */
    method PutBehind(data: seq<T>)
      requires Valid() && mem != null && head + len + |data| <= blockSize
      modifies this`len, mem
      ensures Valid() && Contents() == old(Contents()) + data
    {
      ghost var a, was := mem[..], Contents();
      Copy(mem, head + len, data);
      Extended(a, mem[..], head, len, data, was);
      len := len + |data|;
    }

    /** The data fits once what is there moved to the head of the block. */
    method CompactAndPut(data: seq<T>)
      requires Valid() && mem != null && len + |data| <= blockSize
      modifies this`len, this`head, mem
      ensures Valid() && Contents() == old(Contents()) + data
    {
      ghost var was := Contents();
      MoveDown(mem, head, len);
      assert mem[..len] == was;
      Copy(mem, len, data);
      ghost var b := mem[..];
      assert b[..len] == was && b[len..len + |data|] == data;
      Joined(b, was, data);
      head := 0;
      len := len + |data|;
    }

    /** append; `grant` is the size of the block the pool would give, at least the size asked for, or None. */
    method Append(data: seq<T>, grant: Option<nat>) returns (thrown: bool)
      requires Valid() && |data| < RANGE && (mem != null ==> |data| + head + len < RANGE)
      requires grant.Some? ==> |data| + len <= grant.value < RANGE
      modifies this, mem
      ensures Valid()
      ensures thrown <==> grant.None? && old(mem == null || |data| + len > blockSize)
      ensures Contents() == if thrown then old(Contents()) else Step(old(Contents()), Op.Append(data))
      ensures mem == old(mem) || fresh(mem)
    {
      if mem == null {
        if grant.None? { return true; }
        MoveTo(grant.value, data);
        return false;
      }
      BranchFits(|data|, head, len, blockSize);
      match BranchOf(|data|, head, len, blockSize) {
        case InPlace => PutBehind(data);
        case Regrow =>
          if grant.None? { return true; }
          MoveTo(grant.value, data);
        case Compact => CompactAndPut(data);
      }
      thrown := false;
    }

    /** skip. */
    method Skip(n: nat)
      requires Valid()
      modifies this
      ensures Valid() && Contents() == Step(old(Contents()), Op.Skip(n))
      ensures mem == old(mem) || mem == null
    {
      if mem == null {
        return;
      } else if n >= len {
        returned := returned + 1;
        mem := null;
        blockSize, head, len := 0, 0, 0;
      } else {
        head := head + n;
        len := len - n;
      }
    }
  }

  lemma Extended<T>(a: seq<T>, b: seq<T>, head: nat, len: nat, data: seq<T>, was: seq<T>)
    requires |a| == |b| && head + len + |data| <= |a| && was == a[head..head + len]
    requires b[..head + len] == a[..head + len] && b[head + len..head + len + |data|] == data
    ensures b[head..head + len + |data|] == was + data
  {
    assert b[head..head + len] == b[..head + len][head..];
    assert b[head..head + len + |data|] == b[head..head + len] + b[head + len..head + len + |data|];
  }

  lemma Joined<T>(b: seq<T>, was: seq<T>, data: seq<T>)
    requires |was| + |data| <= |b| && b[..|was|] == was && b[|was|..|was| + |data|] == data
    ensures b[0..|was| + |data|] == was + data
  {
    assert b[..|was| + |data|] == b[..|was|] + b[|was|..|was| + |data|];
  }
}
