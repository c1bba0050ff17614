/** The textbook red-black search tree, as a value. */
module RedBlackTrees {

  datatype Color = Black | Red

  datatype Tree = Leaf | Branch(color: Color, left: Tree, key: nat, right: Tree)

  ghost function Keys(t: Tree): seq<nat>
  {
    if t.Leaf? then [] else Keys(t.left) + [t.key] + Keys(t.right)
  }

  ghost function ColorOf(t: Tree): Color
  {
    if t.Leaf? then Black else t.color
  }

  ghost predicate NoRedRed(t: Tree)
  {
    t.Branch? ==>
      && NoRedRed(t.left) && NoRedRed(t.right)
      && (t.color == Red ==> ColorOf(t.left) == ColorOf(t.right) == Black)
  }

  ghost function BlackHeight(t: Tree): nat
  {
    if t.Leaf? then 0 else BlackHeight(t.left) + if t.color == Black then 1 else 0
  }

  /** Every path from the root to a leaf has the same number of black nodes. */
  ghost predicate Even(t: Tree)
  {
    t.Branch? ==> Even(t.left) && Even(t.right) && BlackHeight(t.left) == BlackHeight(t.right)
  }

  ghost predicate RedBlack(t: Tree)
  {
    ColorOf(t) == Black && NoRedRed(t) && Even(t)
  }

  ghost function Pow2(k: nat): nat
  {
    if k == 0 then 1 else 2 * Pow2(k - 1)
  }

  lemma {:induction false} Pow2Grows(j: nat, k: nat)
    requires j <= k
    ensures 1 <= Pow2(j) <= Pow2(k)
  {
    if j < k {
      Pow2Grows(j, k - 1);
    } else if j > 0 {
      Pow2Grows(j - 1, j - 1);
    }
  }

  /** A tree with equal black heights has at least 2^bh - 1 keys. */
  lemma {:induction false} BigEnough(t: Tree)
    requires Even(t)
    ensures Pow2(BlackHeight(t)) <= |Keys(t)| + 1
  {
    if t.Branch? {
      BigEnough(t.left);
      BigEnough(t.right);
    }
  }
}
