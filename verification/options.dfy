/** The `Option` type that `Iterator::next` and `DoubleEndedIterator::next_back`
    return: `Some(item)` while items remain, `None` once the iterator is exhausted. */
module Options {

  datatype Option<+T> = None | Some(value: T)
}
