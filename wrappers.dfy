/** The optional value used for PHP's `false`-or-value returns and for absent inputs. */
module Wrappers {
  datatype Option<+T> = None | Some(value: T)
}
