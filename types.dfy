/** Values shared by every part of the model: the spending records the API
    returns, the rectangles the treemap produces, box dimensions and positions. */
module Types {

  datatype Option<T> = None | Some(value: T)

  /** Mapping from level name to the id selected at that level. */
  type Filters = map<string, string>

  /** One result of the spending API: `{id, type, name, code?, amount}`. */
  datatype SpendingRecord = SpendingRecord(
    id: string,
    kind: string,       // the record's `type`, one of the drill-down levels
    name: string,
    code: Option<string>,
    amount: real)

  /** A treemap leaf: a rectangle `x0, y0, x1, y1` carrying its record. */
  datatype PartitionCell = PartitionCell(
    x0: real, y0: real, x1: real, y1: real,
    value: real,
    data: SpendingRecord)

  /** `{width, height, depth}` of a box. */
  datatype Dimensions = Dimensions(width: real, height: real, depth: real)

  /** A point in the scene. */
  datatype Vec3 = Vec3(x: real, y: real, z: real)

  const Origin: Vec3 := Vec3(0.0, 0.0, 0.0)

  function Abs(r: real): (a: real)
    ensures a >= 0.0 && (a == r || a == -r)
  {
    if r < 0.0 then -r else r
  }

  function Max(a: real, b: real): (m: real)
    ensures m >= a && m >= b && (m == a || m == b)
  {
    if a >= b then a else b
  }

  function Min(a: real, b: real): (m: real)
    ensures m <= a && m <= b && (m == a || m == b)
  {
    if a <= b then a else b
  }

  /** Taking a whole sequence gives it back. */
  lemma {:induction false} TakeAll<T>(s: seq<T>, n: nat)
    requires n == |s|
    ensures s[..n] == s
  {
  }

  /** No element of `s` occurs twice, checked one element at a time from
      the end. */
  ghost predicate NoRepeats<T>(s: seq<T>)
    decreases |s|
  {
    |s| == 0 || (s[|s| - 1] !in s[..|s| - 1] && NoRepeats(s[..|s| - 1]))
  }

  lemma {:induction false} NoRepeatsApart<T>(s: seq<T>)
    requires NoRepeats(s)
    ensures forall j, k :: 0 <= j < k < |s| ==> s[j] != s[k]
    decreases |s|
  {
    if |s| > 0 {
      var n := |s| - 1;
      NoRepeatsApart(s[..n]);
      forall j, k | 0 <= j < k < |s|
        ensures s[j] != s[k]
      {
        if k == n {
          assert s[..n][j] == s[j];
        } else {
          assert s[..n][j] == s[j] && s[..n][k] == s[k];
        }
      }
    }
  }

  /** Without repeats, an element differs from every element before it. */
  lemma {:induction false} NoRepeatsAt<T>(s: seq<T>, i: nat)
    requires NoRepeats(s) && i < |s|
    ensures forall j :: 0 <= j < i ==> s[j] != s[i]
  {
    NoRepeatsApart(s);
  }

  lemma {:induction false} ApartNoRepeats<T>(s: seq<T>)
    requires forall j, k :: 0 <= j < k < |s| ==> s[j] != s[k]
    ensures NoRepeats(s)
    decreases |s|
  {
    if |s| > 0 {
      var n := |s| - 1;
      ApartNoRepeats(s[..n]);
      forall j | 0 <= j < n
        ensures s[..n][j] != s[n]
      {
      }
    }
  }

  lemma {:induction false} TakeOneMore<T>(s: seq<T>, n: nat)
    requires n < |s|
    ensures s[..n + 1] == s[..n] + [s[n]]
  {
  }
}
