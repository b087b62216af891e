/** From data through fragments and back, over the field that the library uses by default. */
module Erasure {
  import opened BinaryField
  import opened DefaultField
  import opened Gbf
  import opened Redundancy
  import opened Vandermonde

  /** The first k fragments, one behind the other. */
  ghost predicate Encoded(frags: seq<Word>, k: nat, data: seq<Word>, vec: seq<Word>, numFrag: nat, size: nat)
    requires |data| == size * numFrag && k <= |vec|
  {
    && |frags| == k * size
    && forall i: nat, j: nat :: i < k && j < size ==> Holds(frags, i, j, data, vec[i], numFrag, size)
  }

  ghost predicate Holds(frags: seq<Word>, i: nat, j: nat, data: seq<Word>, vec: Word, numFrag: nat, size: nat)
    requires |data| == size * numFrag && j < size
  {
    0 <= i * size + j < |frags| && frags[i * size + j] == Symbol(POLYNOME, data, vec, numFrag, size, j)
  }

  lemma EncodedNone(data: seq<Word>, vec: seq<Word>, numFrag: nat, size: nat)
    requires |data| == size * numFrag
    ensures Encoded([], 0, data, vec, numFrag, size)
  {}

  lemma EncodedNext(frags: seq<Word>, frag: seq<Word>, k: nat, data: seq<Word>, vec: seq<Word>, numFrag: nat, size: nat)
    requires |data| == size * numFrag && k < |vec| && |frag| == size && Encoded(frags, k, data, vec, numFrag, size)
    requires forall j: nat :: j < size ==> frag[j] == Symbol(POLYNOME, data, vec[k], numFrag, size, j)
    ensures Encoded(frags + frag, k + 1, data, vec, numFrag, size)
  {
    var next := frags + frag;
    hide Symbol;
    NextRow(k, size);
    forall i: nat, j: nat | i < k + 1 && j < size ensures Holds(next, i, j, data, vec[i], numFrag, size) {
      if i < k {
        assert Holds(frags, i, j, data, vec[i], numFrag, size);
      } else {
        NewRowHolds(frags, frag, k, j, data, vec[k], numFrag, size);
      }
    }
  }

  lemma NextRow(k: nat, size: nat)
    ensures (k + 1) * size == k * size + size
  {}

  lemma NewRowHolds(frags: seq<Word>, frag: seq<Word>, k: nat, j: nat, data: seq<Word>, vec: Word, numFrag: nat,
                    size: nat)
    requires |data| == size * numFrag && |frag| == size && |frags| == k * size && j < size
    requires frag[j] == Symbol(POLYNOME, data, vec, numFrag, size, j)
    ensures Holds(frags + frag, k, j, data, vec, numFrag, size)
  {
    hide Symbol;
    var base := k * size;
    assert (frags + frag)[base + j] == frag[j];
  }

  lemma EncodedIsEncoding(frags: seq<Word>, data: seq<Word>, vec: seq<Word>, numFrag: nat, size: nat)
    requires |data| == size * numFrag && |vec| == numFrag && Encoded(frags, numFrag, data, vec, numFrag, size)
    ensures |frags| == numFrag * size && IsEncoding(POLYNOME, data, vec, frags, numFrag, size)
  {
    forall k: nat, j: nat | k < numFrag && j < size
      ensures Row(frags, numFrag, size, k)[j] == Symbol(POLYNOME, data, vec[k], numFrag, size, j)
    {
      assert Holds(frags, k, j, data, vec[k], numFrag, size);
      RowCell(frags, numFrag, size, k, j);
    }
  }

  /** Any numFrag fragments with distinct vectors bring the data back. */
  method RoundTrip(data: array<Word>, vec: array<Word>, numFrag: nat, size: nat)
    returns (frags: seq<Word>, out: array<Word>)
    requires numFrag > 0 && data.Length == size * numFrag
    requires vec.Length == numFrag && Distinct(vec[..]) && 0 !in vec[..]
    ensures |frags| == numFrag * size && IsEncoding(POLYNOME, data[..], vec[..], frags, numFrag, size)
    ensures fresh(out) && out[..] == data[..]
  {
    hide Encoded, Symbol, Distinct;
    ghost var d, vs := data[..], vec[..];
    var gbf := new Tables();
    gbf.Init(POLYNOME);
    frags := [];
    EncodedNone(d, vs, numFrag, size);
    for k := 0 to numFrag
      invariant gbf.Ready(POLYNOME) && fresh(gbf.clmul) && fresh(gbf.clmod)
      invariant Encoded(frags, k, d, vs, numFrag, size)
    {
      var frag := new Word[size];
      assert vec[k] in vec[..];
      EncodeOne(gbf, POLYNOME, frag, data, vec[k], numFrag, size);
      EncodedNext(frags, frag[..], k, d, vs, numFrag, size);
      frags := frags + frag[..];
    }
    EncodedIsEncoding(frags, d, vs, numFrag, size);
    var received := new Word[numFrag * size](i requires 0 <= i < |frags| => frags[i]);
    assert received[..] == frags;
    out := new Word[size * numFrag];
    DefaultIsIrreducible();
    Decode(gbf, POLYNOME, out, received, vec, numFrag, size);
  }
}
