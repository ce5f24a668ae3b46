/**
 * The diagnostic log. Every line the preparator writes starts with one of
 * "note: ", "warning: " or "error: "; the model records that severity per line
 * and leaves out the message text. The functions below give the log after a
 * step has appended its lines to `log`.
 */
module Diagnostics {

  datatype Severity = Note | Warning | Error

  /** A warning appended when `c` holds. */
  function WarnIf(log: seq<Severity>, c: bool): seq<Severity>
  {
    if c then log + [Warning] else log
  }

  /** An error appended unless `ok` holds. */
  function ErrorUnless(log: seq<Severity>, ok: bool): seq<Severity>
  {
    if ok then log else log + [Error]
  }

  /** The last entry of `log` is `t`. */
  predicate EndsWith(log: seq<Severity>, t: Severity)
  {
    |log| > 0 && log[|log| - 1] == t
  }

  /** The entries `WarnIf` appends. */
  function Warn(c: bool): seq<Severity>
  {
    if c then [Warning] else []
  }

  /** How many entries `Warn(c)` holds. */
  function WarnCount(c: bool): nat
  {
    if c then 1 else 0
  }

  /** A log that has grown by `t` grows by `t + Warn(c)` under `WarnIf`. */
  lemma WarnIfAppends(log: seq<Severity>, t: seq<Severity>, c: bool)
    ensures WarnIf(log + t, c) == log + (t + Warn(c))
  {
  }

  /** A log that has grown by `t` grows by `t + u` when `u` is appended. */
  lemma AppendAppends(log: seq<Severity>, t: seq<Severity>, u: seq<Severity>)
    ensures log + t + u == log + (t + u)
  {
  }
}
