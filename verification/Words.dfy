/** Machine words, optional results and the few facts about sequences that the other modules share. */
module Words {

  const WORD_LIMIT := 0x1_0000_0000

  /** A 32-bit unsigned word. */
  type Word = w: int | 0 <= w < 0x1_0000_0000

  /** An 8-bit unsigned byte. */
  type Byte = b: int | 0 <= b < 0x100

  /** The 32-bit word a result is cut to. */
  function Wrap(n: int): Word { n % WORD_LIMIT }

  datatype Option<+T> = None | Some(value: T)

  /** No element occurs twice. */
  ghost predicate NoDup<T>(s: seq<T>) {
    forall i, j :: 0 <= i < j < |s| ==> s[i] != s[j]
  }

  /** k copies of c. */
  function Repeat<T>(c: T, k: int): (s: seq<T>)
    ensures |s| == if k > 0 then k else 0
    ensures forall i :: 0 <= i < |s| ==> s[i] == c
  {
    if k > 0 then seq(k, _ => c) else []
  }

  function Max(a: int, b: int): int { if a < b then b else a }

  function Min(a: int, b: int): int { if a < b then a else b }

  lemma Join3<T>(a: seq<T>, b: seq<T>, c: seq<T>)
    ensures a + b + c == a + (b + c)
  {
  }
}
