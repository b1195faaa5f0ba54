/** Vocabulary shared by every module: bytes, machine-word ranges, options and failures. */
module Basics {

  type Byte = b: int | 0 <= b < 256
  type Bytes = seq<Byte>

  const TWO32: int := 0x1_0000_0000
  const TWO64: int := 0x1_0000_0000_0000_0000
  const INT_MAX: int := 0x7FFF_FFFF

  type U32 = n: int | 0 <= n < TWO32
  type Int32 = n: int | -0x8000_0000 <= n < 0x8000_0000

  datatype Option<+T> = None | Some(value: T)

  /** Everything that ends a run: an exception that reaches `main`, or a failed `assert`. */
  datatype Fault =
    | SerializeFailed     // "Failed to serialize ..."
    | BadPrefix           // "Wrong frame prefix format"
    | BadMessage          // "Wrong chat message format"
    | LengthError         // "... exceeds max read buffer size"
    | IoError             // std::system_error
    | AssertionFailed

  datatype Outcome<+T> = Ok(value: T) | Throws(fault: Fault)

  /** The pieces one after another. */
  function Concat(ss: seq<Bytes>): Bytes {
    if ss == [] then [] else ss[0] + Concat(ss[1..])
  }

  lemma AppendAssociates(a: Bytes, b: Bytes, c: Bytes)
    ensures a + b + c == a + (b + c)
  {
  }

  lemma {:induction false} ConcatAppend(a: seq<Bytes>, b: seq<Bytes>)
    ensures Concat(a + b) == Concat(a) + Concat(b)
  {
    if a == [] {
      assert a + b == b;
    } else {
      ConcatAppend(a[1..], b);
      assert (a + b)[1..] == a[1..] + b;
      AppendAssociates(a[0], Concat(a[1..]), Concat(b));
    }
  }

  lemma ConcatSnoc(a: seq<Bytes>, x: Bytes)
    ensures Concat(a + [x]) == Concat(a) + x
  {
    ConcatAppend(a, [x]);
    assert [x][1..] == [];
  }
}
