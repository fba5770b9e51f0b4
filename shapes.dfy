/** Value-level meaning of a node graph: the distance a node reports for a
    query point and the text `toString` gives for it. A node of a kind
    outside this model (intersection, difference, invert and every
    primitive) is carried as its own encoded record; its distance and text
    come from the environment, and so do the distance and text of the
    `Empty` sentinel. */
module Shapes {
  import opened Records

  /** The query point. Coordinates are doubles in the program; here reals. */
  datatype Float3 = Float3(x: real, y: real, z: real)

  datatype Sdf =
    | Empty
    | Union(first: Sdf, second: Sdf)
    | Foreign(rec: Record)

  /** What this model leaves uninterpreted: the sentinel's distance and
      text, and the distance and text of every node kind outside the model. */
  datatype Env = Env(
    emptyDist: real,
    emptyText: string,
    foreignDist: (Record, Float3) -> real,
    foreignText: Record -> string)

  /** `Math.min` on two distances. */
  function Min(x: real, y: real): (m: real)
    ensures m <= x && m <= y
    ensures m == x || m == y
  {
    if x <= y then x else y
  }

  /** `dist(pos)` of the node that `s` describes. */
  function Distance(s: Sdf, env: Env, pos: Float3): real
  {
    match s
    case Empty => env.emptyDist
    case Union(a, b) => Min(Distance(a, env, pos), Distance(b, env, pos))
    case Foreign(r) => env.foreignDist(r, pos)
  }

  /** `toString()` of the node that `s` describes. */
  function Show(s: Sdf, env: Env): string
  {
    match s
    case Empty => env.emptyText
    case Union(a, b) => "(" + Show(a, env) + " | " + Show(b, env) + ")"
    case Foreign(r) => env.foreignText(r)
  }

  /** The operands of a tree of unions, left to right. */
  function Leaves(s: Sdf): (ls: seq<Sdf>)
    ensures |ls| >= 1
    ensures forall i :: 0 <= i < |ls| ==> !ls[i].Union?
  {
    match s
    case Union(a, b) => Leaves(a) + Leaves(b)
    case _ => [s]
  }

  /** A union is no farther than either child, and is as far as one of them. */
  lemma UnionDistIsMin(a: Sdf, b: Sdf, env: Env, pos: Float3)
    ensures Distance(Union(a, b), env, pos) <= Distance(a, env, pos)
    ensures Distance(Union(a, b), env, pos) <= Distance(b, env, pos)
    ensures Distance(Union(a, b), env, pos) == Distance(a, env, pos)
         || Distance(Union(a, b), env, pos) == Distance(b, env, pos)
  {
  }

  /** Swapping the children does not change the distance. */
  lemma UnionCommutes(a: Sdf, b: Sdf, env: Env, pos: Float3)
    ensures Distance(Union(a, b), env, pos) == Distance(Union(b, a), env, pos)
  {
  }

  /** Regrouping nested unions does not change the distance. */
  lemma UnionAssociates(a: Sdf, b: Sdf, c: Sdf, env: Env, pos: Float3)
    ensures Distance(Union(Union(a, b), c), env, pos) == Distance(Union(a, Union(b, c)), env, pos)
  {
  }

  /** An unset slot leaves a union's distance alone as long as the sentinel
      distance is at least the other child's distance. */
  lemma EmptyIsUnionIdentity(a: Sdf, env: Env, pos: Float3)
    requires Distance(a, env, pos) <= env.emptyDist
    ensures Distance(Union(a, Empty), env, pos) == Distance(a, env, pos)
    ensures Distance(Union(Empty, a), env, pos) == Distance(a, env, pos)
  {
  }

  /** A tree of unions is as far as its nearest operand: no farther than
      any operand, and exactly as far as one of them. */
  lemma {:induction false} UnionTreeIsMinOverLeaves(s: Sdf, env: Env, pos: Float3)
    ensures forall l :: l in Leaves(s) ==> Distance(s, env, pos) <= Distance(l, env, pos)
    ensures exists l :: l in Leaves(s) && Distance(s, env, pos) == Distance(l, env, pos)
  {
    match s
    case Union(a, b) =>
      UnionTreeIsMinOverLeaves(a, env, pos);
      UnionTreeIsMinOverLeaves(b, env, pos);
      var la :| la in Leaves(a) && Distance(a, env, pos) == Distance(la, env, pos);
      var lb :| lb in Leaves(b) && Distance(b, env, pos) == Distance(lb, env, pos);
      assert la in Leaves(s) && lb in Leaves(s);
    case _ =>
      assert s in Leaves(s);
  }

  /** The text of a union is its first child's text and its second child's
      text, in that order, separated by " | " and enclosed in parentheses. */
  lemma ShowUnionSplits(a: Sdf, b: Sdf, env: Env)
    ensures var t, ta, tb := Show(Union(a, b), env), Show(a, env), Show(b, env);
      && |t| == |ta| + |tb| + 5
      && t[0] == '(' && t[|t| - 1] == ')'
      && t[1..1 + |ta|] == ta
      && t[1 + |ta|..4 + |ta|] == " | "
      && t[4 + |ta|..|t| - 1] == tb
  {
  }
}
