/** An optional value: the model's stand-in for a lookup that may find nothing
    (`Array.prototype.find` returning `undefined`, `Map.get` returning `undefined`). */
module Optional {

  datatype Option<+T> = None | Some(value: T)
}
