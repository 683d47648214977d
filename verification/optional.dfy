/** An optional value, used for the JavaScript `string | null` results of the rules' helpers
    and for the fixer callback that may decline to produce a fix. */
module Optional {

  datatype Option<+T> = None | Some(value: T)
}
