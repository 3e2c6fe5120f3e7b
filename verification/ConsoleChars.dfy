/** What the two directions of the console share: characters and the buffers they travel in. */
module ConsoleChars {
  /** The host's char, which is signed. */
  type Char = c: int | -128 <= c < 128

  function Concat(parts: seq<seq<Char>>): (r: seq<Char>) {
    if parts == [] then [] else parts[0] + Concat(parts[1..])
  }

  lemma {:induction false} ConcatSnoc(parts: seq<seq<Char>>, last: seq<Char>)
    ensures Concat(parts + [last]) == Concat(parts) + last
  {
    if parts == [] {
      assert (parts + [last])[1..] == [];
    } else {
      ConcatSnoc(parts[1..], last);
      assert (parts + [last])[1..] == parts[1..] + [last];
    }
  }
}
