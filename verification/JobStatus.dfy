/** The job state transition and verb tables of job.c. */
module JobStatus {
  datatype Status =
    Undefined | Created | Running | Paused | Ready | Standby | Waiting | Pending | Aborting | Concluded | Null

  /** JobSTT */
  predicate Allowed(s0: Status, s1: Status) {
    match s0
    case Undefined => s1.Created?
    case Created => s1.Running? || s1.Aborting? || s1.Null?
    case Running => s1.Paused? || s1.Ready? || s1.Waiting? || s1.Aborting?
    case Paused => s1.Running?
    case Ready => s1.Standby? || s1.Waiting? || s1.Aborting?
    case Standby => s1.Ready?
    case Waiting => s1.Pending? || s1.Aborting?
    case Pending => s1.Aborting? || s1.Concluded?
    case Aborting => s1.Aborting? || s1.Concluded?
    case Concluded => s1.Null?
    case Null => false
  }

  datatype Verb = Cancel | Pause | Resume | Finalize | Dismiss

  /** JobVerbTable */
  predicate VerbAllowed(verb: Verb, s: Status) {
    match verb
    case Cancel => s.Created? || s.Running? || s.Paused? || s.Ready? || s.Standby? || s.Waiting? || s.Pending?
    case Pause => s.Created? || s.Running? || s.Paused? || s.Ready? || s.Standby?
    case Resume => s.Created? || s.Running? || s.Paused? || s.Ready? || s.Standby?
    case Finalize => s.Pending?
    case Dismiss => s.Concluded?
  }

  /** job_is_completed_locked */
  predicate Completed(s: Status) { s.Waiting? || s.Pending? || s.Aborting? || s.Concluded? || s.Null? }
}
