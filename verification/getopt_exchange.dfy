/** exchange of lib/getopt.c: an in-place rotation by block swaps. */
module GetoptExchange {

  /** s with the blocks [bottom, middle) and [middle, top) exchanged. */
  function Rotate<T>(s: seq<T>, bottom: nat, middle: nat, top: nat): (r: seq<T>)
    requires bottom <= middle <= top <= |s|
    ensures |r| == |s|
  {
    s[..bottom] + s[middle..top] + s[bottom..middle] + s[top..]
  }

  /** s with the blocks of length len at x and at y swapped. */
  function SwapBlocks<T>(s: seq<T>, x: nat, y: nat, len: nat): (r: seq<T>)
    requires x + len <= y && y + len <= |s|
    ensures |r| == |s|
  {
    s[..x] + s[y..y + len] + s[x + len..y] + s[x..x + len] + s[y + len..]
  }

  /** The inner loops of exchange. */
  method SwapInPlace<T>(argv: array<T>, x: nat, y: nat, len: nat)
    requires x + len <= y && y + len <= argv.Length
    modifies argv
    ensures argv[..] == SwapBlocks(old(argv[..]), x, y, len)
  {
    hide SwapBlocks;
    for i := 0 to len
      invariant forall k :: 0 <= k < argv.Length && !(x <= k < x + i) && !(y <= k < y + i) ==> argv[k] == old(argv[k])
      invariant forall k :: x <= k < x + i ==> argv[k] == old(argv[k - x + y])
      invariant forall k :: y <= k < y + i ==> argv[k] == old(argv[k - y + x])
    {
      var tem := argv[x + i];
      argv[x + i] := argv[y + i];
      argv[y + i] := tem;
    }
    SwapIs(old(argv[..]), argv[..], x, y, len);
  }

  lemma SwapIs<T>(s: seq<T>, t: seq<T>, x: nat, y: nat, len: nat)
    requires x + len <= y && y + len <= |s| == |t|
    requires forall k :: 0 <= k < |s| && !(x <= k < x + len) && !(y <= k < y + len) ==> t[k] == s[k]
    requires forall k :: x <= k < x + len ==> t[k] == s[k - x + y]
    requires forall k :: y <= k < y + len ==> t[k] == s[k - y + x]
    ensures t == SwapBlocks(s, x, y, len)
  {
    var u := SwapBlocks(s, x, y, len);
    forall k | 0 <= k < |s|
      ensures t[k] == u[k]
    {}
  }

  // ---------- rotations and swaps of parts ----------

  lemma RotateParts<T>(p: seq<T>, x: seq<T>, y: seq<T>, z: seq<T>)
    ensures Rotate(p + x + y + z, |p|, |p| + |x|, |p| + |x| + |y|) == p + y + x + z
  {
    var s := p + x + y + z;
    assert s[..|p|] == p;
    assert s[|p|..|p| + |x|] == x;
    assert s[|p| + |x|..|p| + |x| + |y|] == y;
    assert s[|p| + |x| + |y|..] == z;
  }

  lemma SwapParts<T>(p: seq<T>, x: seq<T>, m: seq<T>, y: seq<T>, z: seq<T>)
    requires |x| == |y|
    ensures SwapBlocks(p + x + m + y + z, |p|, |p| + |x| + |m|, |x|) == p + y + m + x + z
  {
    var s := p + x + m + y + z;
    assert s[..|p|] == p;
    assert s[|p| + |x|..|p| + |x| + |m|] == m;
    assert s[|p|..|p| + |x|] == x;
    assert s[|p| + |x| + |m|..|p| + |x| + |m| + |y|] == y;
    assert s[|p| + |x| + |m| + |y|..] == z;
  }

  lemma JoinTail<T>(p: seq<T>, x: seq<T>, y: seq<T>, z: seq<T>)
    ensures p + x + y + z == p + x + (y + z)
  {
  }

  lemma JoinMiddle<T>(p: seq<T>, x: seq<T>, y: seq<T>, z: seq<T>)
    ensures p + x + y + z == p + (x + y) + z
  {
  }

  lemma InParts<T>(s: seq<T>, a: nat, b: nat, c: nat, d: nat)
    requires a <= b <= c <= d <= |s|
    ensures s == s[..a] + s[a..b] + s[b..c] + s[c..d] + s[d..]
  {
  }

  /** The short bottom segment goes to the far end of the top segment. */
  lemma BottomIsShort<T>(s: seq<T>, bottom: nat, middle: nat, top: nat)
    requires bottom <= middle <= top <= |s| && top - middle > middle - bottom
    ensures var len := middle - bottom;
            Rotate(SwapBlocks(s, bottom, top - len, len), bottom, middle, top - len) == Rotate(s, bottom, middle, top)
  {
    hide Rotate, SwapBlocks;
    var far := top - (middle - bottom);
    var p, x, m, y, z := s[..bottom], s[bottom..middle], s[middle..far], s[far..top], s[top..];
    InParts(s, bottom, middle, far, top);
    SwapParts(p, x, m, y, z);
    JoinTail(p + y, m, x, z);
    RotateParts(p, y, m, x + z);
    JoinMiddle(p + x, m, y, z);
    RotateParts(p, x, m + y, z);
    JoinMiddle(p, m, y, x + z);
    JoinTail(p, m + y, x, z);
  }

  /** The short top segment goes to the bottom, where it belongs. */
  lemma TopIsShort<T>(s: seq<T>, bottom: nat, middle: nat, top: nat)
    requires bottom <= middle <= top <= |s| && top - middle <= middle - bottom
    ensures var len := top - middle;
            Rotate(SwapBlocks(s, bottom, middle, len), bottom + len, middle, top) == Rotate(s, bottom, middle, top)
  {
    hide Rotate, SwapBlocks;
    var near := bottom + (top - middle);
    var p, x, m, y, z := s[..bottom], s[bottom..near], s[near..middle], s[middle..top], s[top..];
    InParts(s, bottom, near, middle, top);
    SwapParts(p, x, m, y, z);
    RotateParts(p + y, m, x, z);
    JoinMiddle(p, x, m, y + z);
    JoinTail(p + x, m, y, z);
    JoinTail(p, x + m, y, z);
    RotateParts(p, x + m, y, z);
    JoinMiddle(p + y, x, m, z);
  }

  /** The outer loop of exchange. */
  method RotateInPlace<T>(argv: array<T>, first: nat, last: nat, optind: nat)
    requires first <= last <= optind <= argv.Length
    modifies argv
    ensures argv[..] == Rotate(old(argv[..]), first, last, optind)
  {
    hide Rotate, SwapBlocks;
    var bottom: nat, middle: nat, top: nat := first, last, optind;
    while top > middle && middle > bottom
      invariant bottom <= middle <= top <= argv.Length
      invariant Rotate(argv[..], bottom, middle, top) == Rotate(old(argv[..]), first, last, optind)
      decreases top - bottom
    {
      if top - middle > middle - bottom {
        var len := middle - bottom;
        BottomIsShort(argv[..], bottom, middle, top);
        SwapInPlace(argv, bottom, top - len, len);
        top := top - len;
      } else {
        var len := top - middle;
        TopIsShort(argv[..], bottom, middle, top);
        SwapInPlace(argv, bottom, middle, len);
        bottom := bottom + len;
      }
    }
    RotateNothing(argv[..], bottom, middle, top);
  }

  lemma RotateNothing<T>(s: seq<T>, bottom: nat, middle: nat, top: nat)
    requires bottom <= middle <= top <= |s| && (bottom == middle || middle == top)
    ensures Rotate(s, bottom, middle, top) == s
  {
  }
}
