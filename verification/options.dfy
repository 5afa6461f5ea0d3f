/** A value that may be missing: a pandas cell that `pd.isna` reports as NaN,
    an optional image URL, a lookup that found nothing. */
module Options {

  datatype Option<+T> = None | Some(value: T)
}
