/**
 * The client-side message filter of fplog/fplog.h: a Priority_Filter keeps a
 * set of severity names and lets a message through when its "priority" field
 * names one of them.
 */
module PriorityFilter {
  import opened Wrappers

  /** The severity names of struct Prio, most to least severe (syslog severities). */
  const EMERGENCY: string := "emergency"
  const ALERT: string := "alert"
  const CRITICAL: string := "critical"
  const ERROR: string := "error"
  const WARNING: string := "warning"
  const NOTICE: string := "notice"
  const INFO: string := "info"
  const DEBUG: string := "debug"

  const SEVERITIES: seq<string> := [EMERGENCY, ALERT, CRITICAL, ERROR, WARNING, NOTICE, INFO, DEBUG]

  /** The message field a Priority_Filter looks at. */
  const PRIORITY_KEY: string := "priority"

  /** A log message as its top-level fields, each rendered as a string (JSONNode::as_string). */
  type Message = map<string, string>

  /** should_pass over a set of enabled names: the message's priority, if it has one, is enabled. */
  predicate Passes(enabled: set<string>, msg: Message): (r: bool)
    ensures r ==> PRIORITY_KEY in msg && msg[PRIORITY_KEY] in enabled
    ensures enabled == {} ==> !r
  {
    PRIORITY_KEY in msg && msg[PRIORITY_KEY] in enabled
  }

  /** The eight severities are distinct names, so each can be enabled on its own. */
  lemma SeveritiesDistinct()
    ensures |SEVERITIES| == 8
    ensures forall i, j | 0 <= i < j < |SEVERITIES| :: SEVERITIES[i] != SEVERITIES[j]
  {
  }

  /**
   * A Priority_Filter: its human-readable id (from Filter_Base) and the set of
   * priorities it lets through.
   */
  class Filter {
    var filterId: string
    var prio: set<string>

    /** Filter_Base(filter_id): a null id becomes the empty id; no priority is enabled yet. */
    constructor(id: Option<string>)
      ensures filterId == (if id.Some? then id.value else "")
      ensures prio == {}
    {
      filterId := if id.Some? then id.value else "";
      prio := {};
    }

    /** should_pass: reads the message and the set, changes neither. */
    predicate ShouldPass(msg: Message): (r: bool)
      reads this
      ensures r ==> PRIORITY_KEY in msg && msg[PRIORITY_KEY] in prio
      ensures PRIORITY_KEY in msg && msg[PRIORITY_KEY] in prio ==> r
    {
      Passes(prio, msg)
    }

    /** add: inserts a non-null name into the set; null is ignored. */
    method Add(p: Option<string>)
      modifies this
      ensures prio == (if p.Some? then old(prio) + {p.value} else old(prio))
      ensures filterId == old(filterId)
      ensures p.Some? ==> forall msg | PRIORITY_KEY in msg && msg[PRIORITY_KEY] == p.value :: ShouldPass(msg)
    {
      if p.Some? {
        prio := prio + {p.value};
      }
    }

    /** remove: erases a non-null name if present; absent names and null change nothing. */
    method Remove(p: Option<string>)
      modifies this
      ensures prio == (if p.Some? then old(prio) - {p.value} else old(prio))
      ensures filterId == old(filterId)
      ensures p.Some? ==> forall msg | PRIORITY_KEY in msg && msg[PRIORITY_KEY] == p.value :: !ShouldPass(msg)
    {
      if p.Some? && p.value in prio {
        prio := prio - {p.value};
      }
    }
  }

  /** A message without a "priority" field never passes, whatever is enabled. */
  lemma NoPriorityNeverPasses(enabled: set<string>, msg: Message)
    requires PRIORITY_KEY !in msg
    ensures !Passes(enabled, msg)
  {
  }

  /** A fresh filter lets nothing through. */
  lemma EmptyFilterBlocks(msg: Message)
    ensures !Passes({}, msg)
  {
  }

  /** Adding a name changes the verdict only for messages with exactly that priority. */
  lemma AddEffect(enabled: set<string>, p: string, msg: Message)
    ensures Passes(enabled + {p}, msg) <==> Passes(enabled, msg) || (PRIORITY_KEY in msg && msg[PRIORITY_KEY] == p)
  {
  }

  /** Removing a name changes the verdict only for messages with exactly that priority. */
  lemma RemoveEffect(enabled: set<string>, p: string, msg: Message)
    ensures Passes(enabled - {p}, msg) <==> Passes(enabled, msg) && !(PRIORITY_KEY in msg && msg[PRIORITY_KEY] == p)
  {
  }

  /** Adding twice is adding once; removing an absent name is a no-op. */
  lemma AddIdempotent(enabled: set<string>, p: string)
    ensures enabled + {p} + {p} == enabled + {p}
    ensures p !in enabled ==> enabled - {p} == enabled
  {
  }
}
