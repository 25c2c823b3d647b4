/** Optional values: `None` stands for the point where the program would panic
    (an `unwrap` on nothing, a failed `assert_ne!`, an out-of-bounds index). */
module Wrappers {
  datatype Option<+T> = None | Some(value: T)
}
