/** What several of the models share. */
module Common {

  datatype Option<+T> = None | Some(value: T)

  lemma MulGrows(w: nat, a: nat, b: nat)
    requires a <= b
    ensures w * a <= w * b
  {}
}
