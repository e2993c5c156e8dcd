/** Types shared by the whole core: the crate-level Rank, MatchRange and MatchResult. */
module Common {

  datatype Option<+T> = None | Some(value: T)

  /** A byte (`u8`). */
  newtype Byte = x: int | 0 <= x < 256

  /** The result of Rust's `Ord::cmp`. */
  datatype Ordering = Less | Equal | Greater

  /** A rank: four signed keys compared lexicographically; the smaller rank is the better one.
      Keys are unbounded integers here (the source uses `i32`). */
  type Rank = r: seq<int> | |r| == 4 witness [0, 0, 0, 0]

  /** What matched: a contiguous byte span of the text, or an explicit list of character indices. */
  datatype MatchRange = ByteRange(start: nat, end: nat) | Chars(indices: seq<nat>)

  /** One evaluation of an engine against one item. */
  datatype MatchResult = MatchResult(rank: Rank, matchedRange: MatchRange)
}
