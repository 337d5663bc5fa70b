/** The small array routines of the lab test: swapping two integer arrays in place, the
    biggest of three integers, and printing every other character of a word. */
module CATest {

  // ------------------------------------------------------------ swap

  /** The pair of sequences after their first `size` elements are exchanged; a size of 0
      or less exchanges nothing. */
  function Swapped(s: seq<int>, t: seq<int>, size: int): (r: (seq<int>, seq<int>))
    requires size <= |s| && size <= |t|
    ensures |r.0| == |s| && |r.1| == |t|
    ensures forall i :: 0 <= i < |s| ==> r.0[i] == if i < size then t[i] else s[i]
    ensures forall i :: 0 <= i < |t| ==> r.1[i] == if i < size then s[i] else t[i]
  {
    var n := if size < 0 then 0 else size;
    (t[..n] + s[n..], s[..n] + t[n..])
  }

  /** Exchanging twice restores both sequences. */
  lemma SwappedTwice(s: seq<int>, t: seq<int>, size: int)
    requires size <= |s| && size <= |t|
    ensures Swapped(Swapped(s, t, size).0, Swapped(s, t, size).1, size) == (s, t)
  {
    var r := Swapped(s, t, size);
    var q := Swapped(r.0, r.1, size);
    assert q.0 == s;
    assert q.1 == t;
  }

  /** Exchanges the first `size` elements of a and b one index at a time through a
      temporary. */
  method Swap(a: array<int>, b: array<int>, size: int)
    requires size <= a.Length && size <= b.Length
    modifies a, b
    ensures a != b ==> (a[..], b[..]) == Swapped(old(a[..]), old(b[..]), size)
    ensures a == b ==> a[..] == old(a[..])
  {
    var i := 0;
    while i < size
      invariant 0 <= i && (i <= size || i == 0)
      invariant a != b ==> forall k :: 0 <= k < a.Length ==> a[k] == if k < i then old(b[k]) else old(a[k])
      invariant a != b ==> forall k :: 0 <= k < b.Length ==> b[k] == if k < i then old(a[k]) else old(b[k])
      invariant a == b ==> a[..] == old(a[..])
    {
      var temp := a[i];
      a[i] := b[i];
      b[i] := temp;
      i := i + 1;
    }
    if a != b {
      var r := Swapped(old(a[..]), old(b[..]), size);
      assert a[..] == r.0;
      assert b[..] == r.1;
    }
  }

  /** The recorded run: {1,2,3,4} and {4,5,6,7}, swapped over their whole length of 4,
      come out as 4567 and 1234. */
  method RecordedSwap() returns (first: seq<int>, second: seq<int>)
    ensures first == [4, 5, 6, 7] && second == [1, 2, 3, 4]
  {
    var a := new int[4];
    a[0], a[1], a[2], a[3] := 1, 2, 3, 4;
    var b := new int[4];
    b[0], b[1], b[2], b[3] := 4, 5, 6, 7;
    assert a[..] == [1, 2, 3, 4] && b[..] == [4, 5, 6, 7];
    Swap(a, b, a.Length);
    first, second := a[..], b[..];
  }

  // ------------------------------------------------------------ the biggest of three

  /** The branch chain that picks the "biggest" of x, y and z, as written: the first
      branch, taken when x is at least as big as both others, assigns z. So the result is
      always y or z, and it is the maximum of the three exactly when x is not both at
      least y and strictly bigger than z. */
  method Biggest(x: int, y: int, z: int) returns (w: int)
    ensures w == y || w == z
    ensures x >= y && x >= z ==> w == z
    ensures !(x >= y && x >= z) ==> w >= x && w >= y && w >= z
    ensures (w >= x && w >= y && w >= z) <==> !(x >= y && x > z)
  {
    w := 0;
    if x >= y && x >= z {
      w := z;
    } else if y >= x && y >= z {
      w := y;
    } else if z >= x && z >= y {
      w := z;
    }
  }

  /** The same chain with the first branch assigning x, which returns the maximum. */
  method BiggestCorrected(x: int, y: int, z: int) returns (w: int)
    ensures w >= x && w >= y && w >= z
    ensures w == x || w == y || w == z
  {
    w := 0;
    if x >= y && x >= z {
      w := x;
    } else if y >= x && y >= z {
      w := y;
    } else if z >= x && z >= y {
      w := z;
    }
  }

  /** The recorded run: 56 34 79 prints 79, which is right because z is the largest. */
  method RecordedBiggest() returns (w: int)
    ensures w == 79
  {
    w := Biggest(56, 34, 79);
  }

  /** Input 9 1 2, where x is the largest: the chain as written answers 2, the corrected
      one 9. */
  method BiggestWhenXIsLargest() returns (written: int, corrected: int)
    ensures written == 2 && corrected == 9
  {
    written := Biggest(9, 1, 2);
    corrected := BiggestCorrected(9, 1, 2);
  }

  // ------------------------------------------------------------ every other character

  /** The length of the word buffer. */
  const WordLength := 11

  /** The characters of `word` at even indices, in order. */
  function EvenIndexed(word: seq<char>): (shown: seq<char>)
    ensures |shown| == (|word| + 1) / 2
    ensures forall k :: 0 <= k < |shown| ==> shown[k] == word[2 * k]
  {
    if |word| <= 2 then word[..(|word| + 1) / 2] else [word[0]] + EvenIndexed(word[2..])
  }

  /** The loop that prints word[i] for i = 0, 2, 4, ... below 11: the printed characters
      are returned in order. */
  method EveryOther(word: seq<char>) returns (shown: seq<char>)
    requires |word| == WordLength
    ensures shown == EvenIndexed(word)
  {
    shown := [];
    var i := 0;
    while i < WordLength
      invariant 0 <= i <= WordLength + 1 && i % 2 == 0
      invariant |shown| == i / 2
      invariant forall k :: 0 <= k < |shown| ==> shown[k] == word[2 * k]
    {
      shown := shown + [word[i]];
      i := i + 2;
    }
    assert shown == EvenIndexed(word);
  }

  /** The recorded run: "Tihuaenukas" prints "Thanks". */
  method RecordedEveryOther() returns (shown: seq<char>)
    ensures shown == "Thanks"
  {
    shown := EveryOther("Tihuaenukas");
  }
}
