/** A cons list, for structures that are taken apart one element at a time. */
module Lists {
  datatype List<+T> = Nil | Cons(head: T, tail: List<T>)

  function Length<T>(l: List<T>): (n: nat)
    ensures n == 0 <==> l.Nil?
  {
    match l case Nil => 0 case Cons(_, t) => 1 + Length(t)
  }

  function Snoc<T>(l: List<T>, x: T): (r: List<T>)
    ensures Length(r) == Length(l) + 1
  {
    match l case Nil => Cons(x, Nil) case Cons(h, t) => Cons(h, Snoc(t, x))
  }
}
