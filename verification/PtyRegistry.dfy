/** One pane's slice of the state that pty_spawn, the wait-threads and the cancel commands
    share: its row in the process registry, its entry in the session map, and the OS children
    that were started for it and are still running. Every function here is one critical
    section of the source (one DB call or one hold of the session lock). */
module PtyRegistry {
  import opened Options

  // A generation: the value next_run_token reserved for one spawn.
  type Token = nat

  datatype Status = Running | Done | Failed | Canceled

  datatype Row = Row(status: Status, token: Token)

  datatype Slice = Slice(row: Option<Row>, session: Option<Token>, live: set<Token>)

  predicate IsRunning(row: Option<Row>) {
    row.Some? && row.value.status == Running
  }

  /** `register` is an upsert: a row that is already running keeps its token. */
  function Register(sl: Slice, t: Token): Slice {
    if IsRunning(sl.row) then sl else sl.(row := Some(Row(Running, t)))
  }

  /** `finish` touches only a row that is running under the same token. */
  function Finish(sl: Slice, t: Token, status: Status): Slice {
    if sl.row == Some(Row(Running, t)) then sl.(row := Some(Row(status, t))) else sl
  }

  /** `cancel`: the row update alone; `newlyCanceled` is what the caller gets to see. */
  function Cancel(sl: Slice): Slice {
    if IsRunning(sl.row) then sl.(row := Some(Row(Canceled, sl.row.value.token))) else sl
  }

  predicate NewlyCanceled(sl: Slice) {
    IsRunning(sl.row)
  }

  /** `kill`: takes the session out of the map, whatever its generation, and terminates its child. */
  function Kill(sl: Slice): Slice {
    match sl.session
    case None => sl
    case Some(t) => sl.(session := None, live := sl.live - {t})
  }

  /** `kill_if_spawn_id`: the same, but only for the session of generation `t`. */
  function KillIf(sl: Slice, t: Token): Slice {
    if sl.session == Some(t) then Kill(sl) else sl
  }

  /** The respawn guard inside `spawn`: takes any older session out. Its child gets a SIGHUP only,
      so whether it dies is up to the child. */
  function Evict(sl: Slice, oldDies: bool): Slice {
    if oldDies then Kill(sl) else sl.(session := None)
  }

  function Insert(sl: Slice, t: Token): Slice {
    sl.(session := Some(t))
  }

  /** One turn of wait-thread `t` under the session lock: it removes its own session once the
      child is gone, and nothing otherwise. */
  function Poll(sl: Slice, t: Token): Slice {
    if sl.session == Some(t) && t !in sl.live then sl.(session := None) else sl
  }
}
