/** The predicted-aligned-error side of an AlphaFold model: a square matrix
    whose cell (i, j), 0-based, is the expected error at residue j + 1 when
    the structure is aligned on residue i + 1. The raw values are
    directional; the only lookup symmetrises them. */
module ModelPae {

  datatype Pae = Pae(matrix: seq<seq<real>>)
  {
    predicate Square()
    {
      forall i :: 0 <= i < |matrix| ==> |matrix[i]| == |matrix|
    }

    /** A 1-based residue position with a row and a column in the matrix. */
    predicate Covers(residue: int)
    {
      1 <= residue <= |matrix|
    }

    /** `get_pairwise_PAE`: the mean of the two directional entries of a
        1-based residue pair, which lies between them. */
    function PairwisePae(residue1: int, residue2: int): (e: real)
      requires Square() && Covers(residue1) && Covers(residue2)
      ensures var there, back := matrix[residue1 - 1][residue2 - 1], matrix[residue2 - 1][residue1 - 1];
              (there <= back ==> there <= e <= back) && (back <= there ==> back <= e <= there)
    {
      (matrix[residue1 - 1][residue2 - 1] + matrix[residue2 - 1][residue1 - 1]) / 2.0
    }

    predicate Symmetric()
      requires Square()
    {
      forall i, j :: 0 <= i < |matrix| && 0 <= j < |matrix| ==> matrix[i][j] == matrix[j][i]
    }
  }

  /** The lookup does not depend on the order of the pair. */
  lemma PairwiseSymmetric(pae: Pae, residue1: int, residue2: int)
    requires pae.Square() && pae.Covers(residue1) && pae.Covers(residue2)
    ensures pae.PairwisePae(residue1, residue2) == pae.PairwisePae(residue2, residue1)
  {
  }

  /** On the diagonal the lookup is the matrix entry itself. */
  lemma PairwiseDiagonal(pae: Pae, residue: int)
    requires pae.Square() && pae.Covers(residue)
    ensures pae.PairwisePae(residue, residue) == pae.matrix[residue - 1][residue - 1]
  {
  }

  /** On a matrix that is already symmetric, symmetrising changes nothing. */
  lemma PairwiseOfSymmetric(pae: Pae, residue1: int, residue2: int)
    requires pae.Square() && pae.Symmetric() && pae.Covers(residue1) && pae.Covers(residue2)
    ensures pae.PairwisePae(residue1, residue2) == pae.matrix[residue1 - 1][residue2 - 1]
  {
    assert pae.matrix[residue1 - 1][residue2 - 1] == pae.matrix[residue2 - 1][residue1 - 1];
  }

  /** Errors bounded in the matrix stay bounded after symmetrising. */
  lemma PairwiseBounded(pae: Pae, residue1: int, residue2: int, lo: real, hi: real)
    requires pae.Square() && pae.Covers(residue1) && pae.Covers(residue2)
    requires forall i, j :: 0 <= i < |pae.matrix| && 0 <= j < |pae.matrix| ==> lo <= pae.matrix[i][j] <= hi
    ensures lo <= pae.PairwisePae(residue1, residue2) <= hi
  {
    assert lo <= pae.matrix[residue1 - 1][residue2 - 1] <= hi;
    assert lo <= pae.matrix[residue2 - 1][residue1 - 1] <= hi;
  }

  /** A directional 4 x 4 matrix whose cells (2, 4) and (4, 2), 1-based,
      hold 5 and 7: the pair averages to 6 whichever way it is asked. */
  lemma PairwiseExample()
    ensures var pae := Pae([[0.0, 1.0, 1.0, 1.0], [1.0, 0.0, 1.0, 5.0], [1.0, 1.0, 0.0, 1.0], [1.0, 7.0, 1.0, 0.0]]);
            pae.Square() && pae.PairwisePae(2, 4) == 6.0 && pae.PairwisePae(4, 2) == 6.0
  {
  }
}
