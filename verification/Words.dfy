/** The fixed-width integers of the daemon and of QEMU, and option values. */
module Words {
  datatype Option<+T> = None | Some(value: T)

  const TWO_TO_64: int := 0x1_0000_0000_0000_0000

  type Byte = n: int | 0 <= n < 0x100
  type U16 = n: int | 0 <= n < 0x1_0000
  type U32 = n: int | 0 <= n < 0x1_0000_0000
  type U64 = n: int | 0 <= n < 0x1_0000_0000_0000_0000
  type I32 = n: int | -0x8000_0000 <= n < 0x8000_0000

  /** The value a uint64_t holds after an arithmetic result is stored in it. */
  function Wrap64(n: int): U64 {
    n % TWO_TO_64
  }

  /** A 64-bit difference is exact, or off by exactly one turn. */
  lemma Wrap64Difference(a: U64, b: U64)
    ensures Wrap64(a - b) == if b <= a then a - b else a - b + TWO_TO_64
  {
    if a < b {
      assert (a - b) % TWO_TO_64 == (a - b + TWO_TO_64) % TWO_TO_64;
    }
  }

  function Min(a: int, b: int): int {
    if a <= b then a else b
  }

  function Max(a: int, b: int): int {
    if a >= b then a else b
  }

  /** Concatenation of a list of sequences. */
  function Flatten<T>(parts: seq<seq<T>>): seq<T> {
    if parts == [] then [] else parts[0] + Flatten(parts[1..])
  }

  lemma {:induction false} FlattenAppend<T>(a: seq<seq<T>>, b: seq<seq<T>>)
    ensures Flatten(a + b) == Flatten(a) + Flatten(b)
  {
    if a == [] {
      assert a + b == b;
    } else {
      FlattenAppend(a[1..], b);
      assert (a + b)[0] == a[0] && (a + b)[1..] == a[1..] + b;
    }
  }

  lemma FlattenOne<T>(p: seq<T>)
    ensures Flatten([p]) == p
  {
    assert [p][1..] == [];
  }

  // A member of a set that has one.
  lemma Element<T>(s: set<T>) returns (x: T)
    requires s != {}
    ensures x in s
  {
    x :| x in s;
  }
}
