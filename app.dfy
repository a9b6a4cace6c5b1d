/** app.js: the first draft of the transpose, kept beside the console demo that
    prints a hard-coded matrix and its transpose. */
module App {
  import Utils

  /** getTranspose: for each column, a new row is filled with matrix[row][col]
      from the top row down and pushed onto the result. It computes exactly what
      getMatrixTranspose in utils.js computes: both are Utils.Transposed. */
  method GetTranspose<T>(matrix: seq<seq<T>>) returns (tMatrix: seq<seq<T>>)
    requires Utils.CoversFirstRow(matrix)
    ensures |tMatrix| == Utils.NumCols(matrix)
    ensures forall c :: 0 <= c < |tMatrix| ==> |tMatrix[c]| == |matrix|
    ensures forall r, c :: 0 <= r < |matrix| && 0 <= c < Utils.NumCols(matrix) ==> tMatrix[c][r] == matrix[r][c]
    ensures tMatrix == Utils.Transposed(matrix)
  {
    var numRows := |matrix|;
    var numCols := Utils.NumCols(matrix);
    tMatrix := [];
    for col := 0 to numCols
      invariant |tMatrix| == col
      invariant forall c :: 0 <= c < col ==> tMatrix[c] == Utils.Transposed(matrix)[c]
    {
      var tRow: seq<T> := [];
      for row := 0 to numRows
        invariant |tRow| == row
        invariant forall r :: 0 <= r < row ==> tRow[r] == matrix[r][col]
      {
        tRow := tRow + [matrix[row][col]];
      }
      tMatrix := tMatrix + [tRow];
    }
  }
}
