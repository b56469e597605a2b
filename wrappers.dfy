/** Optional values, standing in for the null results of `MainWindow.xaml.cs`. */
module Wrappers {

  datatype Option<+T> = None | Some(value: T)

  /** A call that either returns a value or lets an exception propagate to its caller. */
  datatype Thrown<+T> = Returned(value: T) | Raised
}
