/** What the kernel's modules share. */
module Common {

  const NR_TASKS: nat := 64
  const TASK_RUNNING: int := 0
  const INIT_PRIORITY: int := 15

  datatype Option<T> = None | Some(value: T)
}
