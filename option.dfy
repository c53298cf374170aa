/** The optional value used wherever the scripts read a field that may be absent
    (a JSON key, a scraped element whose read failed). */
module Optional {

  datatype Option<+T> = None | Some(value: T) {

    /** The value, or `default` when absent (Python's `dict.get(k, default)`). */
    function GetOr(default: T): T {
      match this
      case Some(v) => v
      case None => default
    }
  }
}
