/** A nullable value: None stands for the null pointer, the empty smart
    pointer or the expired weak pointer of the modelled code. */
module Optional {

  datatype Option<+T> = None | Some(value: T)
}
