/**
  The power-iteration clustering engine `cluster_graph` (clustering.py).

  Given an n-by-n directed adjacency matrix M, a threshold theta and a depth k,
  it scans the powers M^1 .. M^k and marks every cell (i, j) of any of them
  whose entry is strictly greater than theta. The marks are collected in an
  auto-vivifying dictionary `clusters`: row i -> (column j -> 1). The result is
  that dictionary (dictionary form), or, when `dictionary_form` is false, the
  dictionary whose every row 0 .. n-1 is replaced by its set of marked
  columns, which fails with KeyError on the first row that has no mark.
 */
module Clustering {
  import opened Matrices

  datatype Option<T> = None | Some(value: T)

  /** The exceptions `cluster_graph` lets through. */
  datatype Error =
    | NotSquare          // np.linalg.matrix_power refuses a non-square matrix
    | KeyError(row: nat) // the key-set view looked up a row that has no mark

  /** What one call of `cluster_graph` gives back. */
  datatype Outcome =
    | NoResult                                 // k <= 0: the function returns None
    | Raised(error: Error)
    | Dict(clusters: map<nat, map<nat, int>>)  // dictionary_form=True
    | Keys(partners: map<nat, set<nat>>)       // dictionary_form=False

  /*********************************************************************
   * The meaning of a mark
   *********************************************************************/

  /** Some power M^m with 1 <= m <= k has an entry strictly above theta at (i, j). */
  ghost predicate Related(M: Matrix, theta: real, k: int, i: nat, j: nat)
    requires IsSquare(M) && i < |M| && j < |M|
  {
    exists m: nat :: 1 <= m <= k && Power(M, m)[i][j] > theta
  }

  /** Row i is related to at least one column. */
  ghost predicate HasPartner(M: Matrix, theta: real, k: int, i: nat)
    requires IsSquare(M) && i < |M|
  {
    exists j: nat :: j < |M| && Related(M, theta, k, i, j)
  }

  /** Cell (i, j) is marked by the scan of one of the powers M^1 .. M^k, power by power. */
  predicate HitUpTo(M: Matrix, theta: real, k: nat, i: nat, j: nat)
    requires IsSquare(M) && i < |M| && j < |M|
  {
    k > 0 && (HitUpTo(M, theta, k - 1, i, j) || Power(M, k)[i][j] > theta)
  }

  /** The set of cells marked after scanning M^1 .. M^k. */
  function HitCells(M: Matrix, theta: real, k: nat): set<(nat, nat)>
    requires IsSquare(M)
  {
    set i: nat, j: nat | i < |M| && j < |M| && HitUpTo(M, theta, k, i, j) :: (i, j)
  }

  /** Membership in HitCells, cell by cell. */
  lemma HitCellsMembers(M: Matrix, theta: real, k: nat)
    requires IsSquare(M)
    ensures forall i: nat, j: nat :: (i, j) in HitCells(M, theta, k) <==> i < |M| && j < |M| && HitUpTo(M, theta, k, i, j)
  {
  }

  /**
    Cell (r, c) is marked once the scan of M^m has reached cell (i, j): it was
    marked by an earlier power, or M^m exceeds theta there and (r, c) comes
    before (i, j) in row-major order.
   */
  predicate MarkedBefore(M: Matrix, theta: real, m: nat, i: nat, j: nat, r: nat, c: nat)
    requires IsSquare(M) && m >= 1 && r < |M| && c < |M|
  {
    HitUpTo(M, theta, m - 1, r, c) || ((r < i || (r == i && c < j)) && Power(M, m)[r][c] > theta)
  }

  /** The set of cells marked once the scan of M^m has reached cell (i, j). */
  function Scanned(M: Matrix, theta: real, m: nat, i: nat, j: nat): set<(nat, nat)>
    requires IsSquare(M) && m >= 1
  {
    set r: nat, c: nat | r < |M| && c < |M| && MarkedBefore(M, theta, m, i, j, r, c) :: (r, c)
  }

  /** Membership in Scanned, cell by cell. */
  lemma ScannedMembers(M: Matrix, theta: real, m: nat, i: nat, j: nat)
    requires IsSquare(M) && m >= 1
    ensures forall r: nat, c: nat :: (r, c) in Scanned(M, theta, m, i, j) <==>
      r < |M| && c < |M| && MarkedBefore(M, theta, m, i, j, r, c)
  {
  }

  /** Before the scan of M^m starts, the marks are those of M^1 .. M^(m-1). */
  lemma ScanStart(M: Matrix, theta: real, m: nat)
    requires IsSquare(M) && m >= 1
    ensures Scanned(M, theta, m, 0, 0) == HitCells(M, theta, m - 1)
  {
    ScannedMembers(M, theta, m, 0, 0);
    HitCellsMembers(M, theta, m - 1);
    SameCells(Scanned(M, theta, m, 0, 0), HitCells(M, theta, m - 1));
  }

  /** Scanning cell (i, j) adds it to the marks exactly when its entry exceeds theta. */
  lemma ScanCell(M: Matrix, theta: real, m: nat, i: nat, j: nat)
    requires IsSquare(M) && m >= 1 && i < |M| && j < |M|
    ensures Scanned(M, theta, m, i, j + 1) ==
      Scanned(M, theta, m, i, j) + (if Power(M, m)[i][j] > theta then {(i, j)} else {})
  {
    ScannedMembers(M, theta, m, i, j);
    ScannedMembers(M, theta, m, i, j + 1);
    SameCells(Scanned(M, theta, m, i, j + 1),
      Scanned(M, theta, m, i, j) + (if Power(M, m)[i][j] > theta then {(i, j)} else {}));
  }

  /** The same step, on the accumulator: scanning cell (i, j) performs `clusters[i][j] = 1` exactly when its entry exceeds theta. */
  lemma ScanCellDict(M: Matrix, theta: real, m: nat, i: nat, j: nat)
    requires IsSquare(M) && m >= 1 && i < |M| && j < |M|
    ensures ToDict(Scanned(M, theta, m, i, j + 1)) ==
      if Power(M, m)[i][j] > theta then SetMarker(ToDict(Scanned(M, theta, m, i, j)), i, j)
      else ToDict(Scanned(M, theta, m, i, j))
  {
    ScanCell(M, theta, m, i, j);
    if Power(M, m)[i][j] > theta {
      MarkCell(Scanned(M, theta, m, i, j), i, j);
    } else {
      assert Scanned(M, theta, m, i, j + 1) == Scanned(M, theta, m, i, j);
    }
  }

  /** Finishing row i is starting row i + 1. */
  lemma ScanRow(M: Matrix, theta: real, m: nat, i: nat)
    requires IsSquare(M) && m >= 1
    ensures Scanned(M, theta, m, i, |M|) == Scanned(M, theta, m, i + 1, 0)
  {
    ScannedMembers(M, theta, m, i, |M|);
    ScannedMembers(M, theta, m, i + 1, 0);
    SameCells(Scanned(M, theta, m, i, |M|), Scanned(M, theta, m, i + 1, 0));
  }

  /** After the last row of M^m, the marks are those of M^1 .. M^m. */
  lemma ScanEnd(M: Matrix, theta: real, m: nat)
    requires IsSquare(M) && m >= 1
    ensures Scanned(M, theta, m, |M|, 0) == HitCells(M, theta, m)
  {
    ScannedMembers(M, theta, m, |M|, 0);
    HitCellsMembers(M, theta, m);
    SameCells(Scanned(M, theta, m, |M|, 0), HitCells(M, theta, m));
  }

  /*********************************************************************
   * The accumulator
   *********************************************************************/

  /**
    The accumulator `clusters` once exactly the cells of S are marked: a key
    for every row with a marked cell and no other, mapping each marked column
    of that row to the marker 1.
   */
  function ToDict(S: set<(nat, nat)>): map<nat, map<nat, int>> {
    map i | i in RowsOf(S) :: RowDict(S, i)
  }

  /** What the accumulator holds: the marked cells, no empty row, and only the marker 1. */
  lemma ToDictMembers(S: set<(nat, nat)>)
    ensures forall i: nat, j: nat :: (i, j) in S <==> i in ToDict(S) && j in ToDict(S)[i]
    ensures forall i :: i in ToDict(S) ==> ToDict(S)[i] != map[]
    ensures forall i, j :: i in ToDict(S) && j in ToDict(S)[i] ==> ToDict(S)[i][j] == 1
  {
    forall i: nat, j: nat ensures (i, j) in S <==> i in ToDict(S) && j in ToDict(S)[i] {
      RowsOfMembers(S);
      if (i, j) in S {
        ColumnsOfMembers(S, i);
      } else if i in ToDict(S) {
        ColumnsOfMembers(S, i);
      }
    }
    forall i | i in ToDict(S) ensures ToDict(S)[i] != map[] {
      RowsOfMembers(S);
      var j: nat :| (i, j) in S;
      ColumnsOfMembers(S, i);
      assert j in ToDict(S)[i];
    }
  }

  /** The rows that have a cell in S. */
  function RowsOf(S: set<(nat, nat)>): set<nat> {
    set p | p in S :: p.0
  }

  /** A row is in RowsOf(S) exactly when S has a cell in it. */
  lemma RowsOfMembers(S: set<(nat, nat)>)
    ensures forall i: nat :: i in RowsOf(S) <==> exists j: nat :: (i, j) in S
  {
    forall i: nat | i in RowsOf(S) ensures exists j: nat :: (i, j) in S {
      var p :| p in S && p.0 == i;
      assert (i, p.1) == p;
    }
  }

  /** The columns of the cells of S in row i. */
  function ColumnsOf(S: set<(nat, nat)>, i: nat): set<nat> {
    set p | p in S && p.0 == i :: p.1
  }

  /** Column j is in ColumnsOf(S, i) exactly when (i, j) is in S. */
  lemma ColumnsOfMembers(S: set<(nat, nat)>, i: nat)
    ensures forall j: nat :: j in ColumnsOf(S, i) <==> (i, j) in S
  {
    forall j: nat | j in ColumnsOf(S, i) ensures (i, j) in S {
      var p :| p in S && p.0 == i && p.1 == j;
      assert (i, j) == p;
    }
  }

  /** Row i of the accumulator: each column j with (i, j) in S mapped to 1. */
  function RowDict(S: set<(nat, nat)>, i: nat): map<nat, int> {
    map j | j in ColumnsOf(S, i) :: 1
  }

  /** `clusters[i][j] = 1` on the nested defaultdict: row i is created empty first if it is absent. */
  function SetMarker(D: map<nat, map<nat, int>>, i: nat, j: nat): map<nat, map<nat, int>> {
    D[i := (if i in D then D[i] else map[])[j := 1]]
  }

  /** Marking one more cell in the accumulator is adding that cell to the marked set. */
  lemma MarkCell(S: set<(nat, nat)>, i: nat, j: nat)
    ensures ToDict(S + {(i, j)}) == SetMarker(ToDict(S), i, j)
  {
    var T := S + {(i, j)};
    var A, B := ToDict(T), SetMarker(ToDict(S), i, j);
    assert RowsOf(T) == RowsOf(S) + {i};
    forall r | r in A ensures r in B && A[r] == B[r] {
      if r == i {
        MarkedRow(S, i, j);
      } else {
        OtherRow(S, i, j, r);
      }
    }
  }

  /** The marked row gains column j and keeps its other columns. */
  lemma MarkedRow(S: set<(nat, nat)>, i: nat, j: nat)
    ensures RowDict(S + {(i, j)}, i) == (if i in RowsOf(S) then RowDict(S, i) else map[])[j := 1]
  {
    var before := if i in RowsOf(S) then RowDict(S, i) else map[];
    assert ColumnsOf(S + {(i, j)}, i) == before.Keys + {j};
  }

  /** Every other row is left as it was. */
  lemma OtherRow(S: set<(nat, nat)>, i: nat, j: nat, r: nat)
    requires r != i
    ensures RowDict(S + {(i, j)}, r) == RowDict(S, r)
  {
    assert ColumnsOf(S + {(i, j)}, r) == ColumnsOf(S, r);
  }

  /** Two cell sets with the same members are equal. */
  lemma SameCells(S: set<(nat, nat)>, T: set<(nat, nat)>)
    requires forall i: nat, j: nat :: (i, j) in S <==> (i, j) in T
    ensures S == T
  {
    forall p | p in S ensures p in T { assert p == (p.0, p.1); }
    forall p | p in T ensures p in S { assert p == (p.0, p.1); }
  }

  /** One cell of the scan: `if matrix[i][j] > theta: clusters[i][j] = 1`. */
  function Visit(D: map<nat, map<nat, int>>, P: Matrix, theta: real, i: nat, j: nat): map<nat, map<nat, int>>
    requires i < |P| && j < |P[i]|
  {
    if P[i][j] > theta then SetMarker(D, i, j) else D
  }

  /**
    The accumulator in the order the scan builds it: after the powers
    M^1 .. M^(m-1) in full and the cells of M^m before (i, j) in row-major
    order (nothing at all when m = 0).
   */
  function Acc(M: Matrix, theta: real, m: nat, i: nat, j: nat): map<nat, map<nat, int>>
    requires IsSquare(M) && i <= |M| && j <= |M| && (j > 0 ==> i < |M|)
    decreases m, i, j
  {
    if m == 0 then map[]
    else if j > 0 then Visit(Acc(M, theta, m, i, j - 1), Power(M, m), theta, i, j - 1)
    else if i > 0 then Acc(M, theta, m, i - 1, |M|)
    else Acc(M, theta, m - 1, |M|, 0)
  }

  /** The accumulator at every point of the scan holds exactly the cells marked so far. */
  lemma {:induction false} AccScanned(M: Matrix, theta: real, m: nat, i: nat, j: nat)
    requires IsSquare(M) && m >= 1 && i <= |M| && j <= |M| && (j > 0 ==> i < |M|)
    ensures Acc(M, theta, m, i, j) == ToDict(Scanned(M, theta, m, i, j))
    decreases m, i, j
  {
    if j > 0 {
      AccScanned(M, theta, m, i, j - 1);
      ScanCellDict(M, theta, m, i, j - 1);
    } else if i > 0 {
      AccScanned(M, theta, m, i - 1, |M|);
      ScanRow(M, theta, m, i - 1);
    } else {
      ScanStart(M, theta, m);
      if m > 1 {
        AccScanned(M, theta, m - 1, |M|, 0);
        ScanEnd(M, theta, m - 1);
      } else {
        assert HitCells(M, theta, 0) == {};
      }
    }
  }

  /** After the last row of M^k the accumulator is the reference dictionary. */
  lemma AccExpected(M: Matrix, theta: real, k: nat)
    requires IsSquare(M)
    ensures Acc(M, theta, k, |M|, 0) == Expected(M, theta, k)
  {
    if k == 0 {
      assert HitCells(M, theta, 0) == {};
    } else {
      AccScanned(M, theta, k, |M|, 0);
      ScanEnd(M, theta, k);
    }
  }

  /*********************************************************************
   * The key-set view (dictionary_form=False)
   *********************************************************************/

  /** The first row in [from, n) that is not a key of D: the lookup that raises KeyError. */
  function FirstMissing(D: map<nat, map<nat, int>>, from: nat, n: nat): (r: Option<nat>)
    ensures r.Some? ==> from <= r.value < n && r.value !in D && forall q :: from <= q < r.value ==> q in D
    ensures r.None? ==> forall q :: from <= q < n ==> q in D
    decreases n - from
  {
    if from >= n then None
    else if from !in D then Some(from)
    else FirstMissing(D, from + 1, n)
  }

  /** Every row 0 .. n-1 replaced by its key set, or KeyError on the first row that is absent. */
  function KeyView(D: map<nat, map<nat, int>>, n: nat): Outcome {
    match FirstMissing(D, 0, n)
    case Some(r) => Raised(KeyError(r))
    case None => Keys(map r: nat | r < n :: D[r].Keys)
  }

  /*********************************************************************
   * The reference definition and the imperative engine
   *********************************************************************/

  /** The marks collected over the powers 1 .. k, as a dictionary. */
  function Expected(M: Matrix, theta: real, k: nat): map<nat, map<nat, int>>
    requires IsSquare(M)
  {
    ToDict(HitCells(M, theta, k))
  }

  /** What `cluster_graph(M, theta, k, dictionary_form)` returns or raises. */
  function ClusterGraphSpec(M: Matrix, theta: real, k: int, dictionaryForm: bool): Outcome {
    if k <= 0 then NoResult
    else if !IsSquare(M) then Raised(NotSquare)
    else if dictionaryForm then Dict(Expected(M, theta, k))
    else KeyView(Expected(M, theta, k), |M|)
  }

  /**
    The engine: one power at a time, a row-by-row, column-by-column scan that
    marks each cell strictly above theta, then the optional key-set view. The
    matrix is a value, so nothing the caller holds is changed.
   */
  method ClusterGraph(M: Matrix, theta: real, k: int, dictionaryForm: bool) returns (out: Outcome)
    ensures k <= 0 ==> out == NoResult
    ensures out == ClusterGraphSpec(M, theta, k, dictionaryForm)
  {
    var n := |M|;
    if k <= 0 {
      return NoResult;
    }
    if !IsSquare(M) {
      return Raised(NotSquare);
    }
    var clusters: map<nat, map<nat, int>> := map[];
    var m: nat := 0;  // the last power scanned
    while m != k
      invariant m <= k
      invariant clusters == Acc(M, theta, m, n, 0)
    {
      m := m + 1;
      var matrix := Power(M, m);
      var i: nat := 0;
      while i < n
        invariant i <= n
        invariant clusters == Acc(M, theta, m, i, 0)
      {
        var j: nat := 0;
        while j < n
          invariant j <= n
          invariant clusters == Acc(M, theta, m, i, j)
        {
          if matrix[i][j] > theta {
            clusters := SetMarker(clusters, i, j);
          }
          j := j + 1;
        }
        i := i + 1;
      }
    }
    AccExpected(M, theta, k);
    // `clusters = dict(clusters)`: from here on an absent row is not created on lookup
    if dictionaryForm {
      return Dict(clusters);
    }
    out := KeySets(clusters, n);
  }

  /**
    The `dictionary_form=False` pass: row by row from 0, replace each row's
    dictionary by its key set; the first row that is not in the dictionary
    raises KeyError.
   */
  method KeySets(clusters: map<nat, map<nat, int>>, n: nat) returns (out: Outcome)
    ensures out == KeyView(clusters, n)
  {
    var partners: map<nat, set<nat>> := map[];
    var i: nat := 0;
    while i < n
      invariant i <= n
      invariant forall r :: 0 <= r < i ==> r in clusters
      invariant partners == map r: nat | r < i :: clusters[r].Keys
    {
      if i !in clusters {
        return Raised(KeyError(i));
      }
      partners := partners[i := clusters[i].Keys];
      i := i + 1;
    }
    return Keys(partners);
  }

  /*********************************************************************
   * Properties of cluster_graph
   *********************************************************************/

  /** A cell is marked by the scan of M^1 .. M^k exactly when one of those powers exceeds theta there. */
  lemma {:induction false} HitUpToRelated(M: Matrix, theta: real, k: nat, i: nat, j: nat)
    requires IsSquare(M) && i < |M| && j < |M|
    ensures HitUpTo(M, theta, k, i, j) <==> Related(M, theta, k, i, j)
    decreases k
  {
    if k > 0 {
      HitUpToRelated(M, theta, k - 1, i, j);
      if Related(M, theta, k, i, j) {
        var m: nat :| 1 <= m <= k && Power(M, m)[i][j] > theta;
        if m < k {
          assert Related(M, theta, k - 1, i, j);
        }
      }
      if HitUpTo(M, theta, k - 1, i, j) {
        var m: nat :| 1 <= m <= k - 1 && Power(M, m)[i][j] > theta;
        assert 1 <= m <= k;
      } else if Power(M, k)[i][j] > theta {
        assert Related(M, theta, k, i, j);
      }
    }
  }

  /**
    In dictionary form, j is a partner of i exactly when (M^m)[i][j] > theta
    for some 1 <= m <= k, and every stored marker is 1.
   */
  lemma DictFormMembership(M: Matrix, theta: real, k: int, i: nat, j: nat)
    requires IsSquare(M) && k >= 1
    ensures ClusterGraphSpec(M, theta, k, true).Dict?
    ensures var D := ClusterGraphSpec(M, theta, k, true).clusters;
      (i in D && j in D[i] <==> i < |M| && j < |M| && Related(M, theta, k, i, j)) &&
      (i in D && j in D[i] ==> D[i][j] == 1)
  {
    ToDictMembers(HitCells(M, theta, k));
    HitCellsMembers(M, theta, k);
    if i < |M| && j < |M| {
      HitUpToRelated(M, theta, k, i, j);
    }
  }

  /**
    In dictionary form, the keys are exactly the rows with at least one
    partner: every key and every partner lies in 0 .. n-1, and a row with no
    hit is absent rather than mapped to an empty dictionary.
   */
  lemma DictFormRows(M: Matrix, theta: real, k: int, i: nat)
    requires IsSquare(M) && k >= 1
    ensures var D := ClusterGraphSpec(M, theta, k, true).clusters;
      (i in D <==> i < |M| && HasPartner(M, theta, k, i)) &&
      (i in D ==> D[i] != map[] && forall j :: j in D[i] ==> j < |M|)
  {
    var D := Expected(M, theta, k);
    ToDictMembers(HitCells(M, theta, k));
    HitCellsMembers(M, theta, k);
    if i in D {
      var j :| j in D[i];
      HitUpToRelated(M, theta, k, i, j);
    }
    if i < |M| && HasPartner(M, theta, k, i) {
      var j: nat :| j < |M| && Related(M, theta, k, i, j);
      HitUpToRelated(M, theta, k, i, j);
    }
  }

  /** The comparison is strict: a cell whose entries never exceed theta (equal to it, say) is never recorded. */
  lemma ThresholdIsStrict(M: Matrix, theta: real, k: int, i: nat, j: nat)
    requires IsSquare(M) && k >= 1 && i < |M| && j < |M|
    requires forall m: nat :: 1 <= m <= k ==> Power(M, m)[i][j] <= theta
    ensures var D := ClusterGraphSpec(M, theta, k, true).clusters;
      !(i in D && j in D[i])
  {
    DictFormMembership(M, theta, k, i, j);
  }

  /**
    Raising the depth only adds: for 1 <= k1 <= k2 every row of the k1 result
    is a row of the k2 result, its partners are partners there too, and their
    markers are unchanged.
   */
  lemma MonotoneInDepth(M: Matrix, theta: real, k1: int, k2: int, i: nat)
    requires IsSquare(M) && 1 <= k1 <= k2
    ensures var D1 := ClusterGraphSpec(M, theta, k1, true).clusters;
      var D2 := ClusterGraphSpec(M, theta, k2, true).clusters;
      i in D1 ==> i in D2 && D1[i].Keys <= D2[i].Keys && forall j :: j in D1[i] ==> D2[i][j] == D1[i][j]
  {
    var D1 := ClusterGraphSpec(M, theta, k1, true).clusters;
    var D2 := ClusterGraphSpec(M, theta, k2, true).clusters;
    if i in D1 {
      forall j | j in D1[i] ensures i in D2 && j in D2[i] && D2[i][j] == D1[i][j] {
        DictFormMembership(M, theta, k1, i, j);
        DictFormMembership(M, theta, k2, i, j);
        var m: nat :| 1 <= m <= k1 && Power(M, m)[i][j] > theta;
        assert Related(M, theta, k2, i, j);
      }
      DictFormRows(M, theta, k1, i);
    }
  }

  /**
    With dictionary_form=False the call succeeds exactly when every row
    0 .. n-1 has a partner; otherwise it raises KeyError for the first row
    without one.
   */
  lemma KeyFormOutcome(M: Matrix, theta: real, k: int)
    requires IsSquare(M) && k >= 1
    ensures var out := ClusterGraphSpec(M, theta, k, false);
      (out.Keys? <==> forall i: nat :: i < |M| ==> HasPartner(M, theta, k, i)) &&
      (!out.Keys? ==>
        out.Raised? && out.error.KeyError? && out.error.row < |M| &&
        !HasPartner(M, theta, k, out.error.row) &&
        forall q: nat :: q < out.error.row ==> HasPartner(M, theta, k, q))
  {
    forall i: nat | i < |M| ensures i in Expected(M, theta, k) <==> HasPartner(M, theta, k, i) {
      DictFormRows(M, theta, k, i);
    }
  }

  /**
    When the key-set view succeeds, it maps each row 0 .. n-1, and no other
    key, to the set of its partners.
   */
  lemma KeyFormPartners(M: Matrix, theta: real, k: int, i: nat, j: nat)
    requires IsSquare(M) && k >= 1
    requires ClusterGraphSpec(M, theta, k, false).Keys?
    ensures var P := ClusterGraphSpec(M, theta, k, false).partners;
      (i in P <==> i < |M|) &&
      (i in P && j in P[i] <==> i < |M| && j < |M| && Related(M, theta, k, i, j))
  {
    DictFormMembership(M, theta, k, i, j);
  }

  /**
    The module-level example: M = [[1, 0.5], [0.3, 1]], theta = 0.4, k = 1.
    The diagonal is scanned like any other cell, so both rows have partners.
   */
  lemma ExampleDepthOne()
    ensures ClusterGraphSpec([[1.0, 0.5], [0.3, 1.0]], 0.4, 1, true) ==
      Dict(map[0 := map[0 := 1, 1 := 1], 1 := map[1 := 1]])
    ensures ClusterGraphSpec([[1.0, 0.5], [0.3, 1.0]], 0.4, 1, false) ==
      Keys(map[0 := {0, 1}, 1 := {1}])
  {
    var D := ExampleMarks();
    assert FirstMissing(D, 0, 2) == None;
    assert D[0].Keys == {0, 1} && D[1].Keys == {1};
    assert (map r: nat | r < 2 :: D[r].Keys) == map[0 := {0, 1}, 1 := {1}];
  }

  /** The marks of the example, computed cell by cell. */
  lemma ExampleMarks() returns (D: map<nat, map<nat, int>>)
    ensures IsSquare([[1.0, 0.5], [0.3, 1.0]])
    ensures D == Expected([[1.0, 0.5], [0.3, 1.0]], 0.4, 1)
    ensures D == map[0 := map[0 := 1, 1 := 1], 1 := map[1 := 1]]
  {
    var M: Matrix := [[1.0, 0.5], [0.3, 1.0]];
    assert IsSquare(M);
    ExampleCells();
    ExampleDict();
    D := Expected(M, 0.4, 1);
  }

  /** The cells of the example above 0.4 at depth 1: the diagonal and (0, 1). */
  lemma ExampleCells()
    ensures IsSquare([[1.0, 0.5], [0.3, 1.0]])
    ensures HitCells([[1.0, 0.5], [0.3, 1.0]], 0.4, 1) == {(0, 0), (0, 1), (1, 1)}
  {
    var M: Matrix := [[1.0, 0.5], [0.3, 1.0]];
    assert IsSquare(M);
    HitCellsMembers(M, 0.4, 1);
    SameCells(HitCells(M, 0.4, 1), {(0, 0), (0, 1), (1, 1)});
  }

  /** The dictionary built from those cells. */
  lemma ExampleDict()
    ensures ToDict({(0, 0), (0, 1), (1, 1)}) == map[0 := map[0 := 1, 1 := 1], 1 := map[1 := 1]]
  {
    var S: set<(nat, nat)> := {(0, 0), (0, 1), (1, 1)};
    assert RowsOf(S) == {0, 1};
    assert ColumnsOf(S, 0) == {0, 1};
    assert ColumnsOf(S, 1) == {1};
    assert RowDict(S, 0) == map[0 := 1, 1 := 1];
    assert RowDict(S, 1) == map[1 := 1];
  }

  /**
    The same matrix at depth 2: (M^2)[1][0] = 0.3 * 1 + 1 * 0.3 = 0.6 > 0.4, so
    the product (not the elementwise square, 0.09) makes row 1 gain partner 0.
   */
  lemma ExampleDepthTwo()
    ensures ClusterGraphSpec([[1.0, 0.5], [0.3, 1.0]], 0.4, 2, true) ==
      Dict(map[0 := map[0 := 1, 1 := 1], 1 := map[0 := 1, 1 := 1]])
  {
    ExampleCellsTwo();
    var S: set<(nat, nat)> := {(0, 0), (0, 1), (1, 0), (1, 1)};
    assert RowsOf(S) == {0, 1};
    assert ColumnsOf(S, 0) == {0, 1};
    assert ColumnsOf(S, 1) == {0, 1};
    assert RowDict(S, 0) == map[0 := 1, 1 := 1];
    assert RowDict(S, 1) == map[0 := 1, 1 := 1];
  }

  /** At depth 2 every cell of the example is marked. */
  lemma ExampleCellsTwo()
    ensures IsSquare([[1.0, 0.5], [0.3, 1.0]])
    ensures HitCells([[1.0, 0.5], [0.3, 1.0]], 0.4, 2) == {(0, 0), (0, 1), (1, 0), (1, 1)}
  {
    var M: Matrix := [[1.0, 0.5], [0.3, 1.0]];
    ExampleCells();
    ExampleSquare();
    HitCellsMembers(M, 0.4, 2);
    HitCellsMembers(M, 0.4, 1);
    SameCells(HitCells(M, 0.4, 2), {(0, 0), (0, 1), (1, 0), (1, 1)});
  }

  /** (M^2)[1][0] for the example matrix. */
  lemma ExampleSquare()
    ensures IsSquare([[1.0, 0.5], [0.3, 1.0]])
    ensures Power([[1.0, 0.5], [0.3, 1.0]], 2)[1][0] == 0.6
  {
    var M: Matrix := [[1.0, 0.5], [0.3, 1.0]];
    assert IsSquare(M);
    assert Power(M, 2) == Mul(M, M);
    assert Dot(M, M, 1, 0, 2) == 0.3 * 1.0 + 1.0 * 0.3;
  }
}
