/**
  `write_private_text`: a file replaced so that a crash between any two steps leaves the old
  one or the new one. A crash keeps what was synced and directory entries as they stand; what
  was written and not synced may be lost.
 */
module PrivateFiles {
  import opened Options

  /** What a file holds: nothing yet, part of a write, or the whole of one. */
  datatype Content<T> = Empty | Partial | Whole(value: T)

  datatype File<T> = File(content: Content<T>, synced: bool)

  /** The target, the temporary file of the write in progress, and those left behind for good:
      each has a name nobody else ever uses. */
  datatype Image<T> = Image(target: Option<File<T>>, temp: Option<File<T>>, left: seq<File<T>>)

  /** What a crash leaves of a file. */
  function Survives<T>(f: Option<File<T>>): Option<Content<T>> {
    if f.None? then None
    else if f.value.synced then Some(f.value.content)
    else Some(Partial)
  }

  /** The steps that touch the disk, each of which may raise. */
  datatype Step = OpenTemp | WriteTemp | FlushTemp | SyncTemp | ReplaceTarget

  /** The step that raises, and whether removing the temporary file then fails too. */
  datatype Fault = Fault(at: Step, unlinkFails: bool)

  /** What is on the disk when the machine is up again: what survived is now durable. */
  function AfterCrash<T>(i: Image<T>): Image<T> {
    var kept := Survives(i.target);
    Image(if kept.None? then None else Some(File(kept.value, true)), None,
          i.left + if i.temp.None? then [] else [File(Survives(i.temp).value, true)])
  }

  /** A file that the writing of `value` makes: empty, or part or all of it. */
  ghost predicate OfWrite<T>(f: File<T>, value: T) {
    match f.content
    case Empty => true
    case Partial => true
    case Whole(all) => all == value
  }

  /** Beyond what the disk held `before`, it holds nothing but `value`, or part of it: in the target, the temporary
      file, or one that could not be removed. */
  ghost predicate HoldsOnly<T>(now: Image<T>, before: Image<T>, value: T) {
    && (now.target == before.target || (now.target.Some? && OfWrite(now.target.value, value)))
    && (now.temp.Some? ==> OfWrite(now.temp.value, value))
    && (now.left == before.left
        || (|now.left| == |before.left| + 1 && now.left[..|before.left|] == before.left
            && OfWrite(now.left[|before.left|], value)))
  }

  /** Each state a write goes through does. */
  lemma WritesHoldOnly<T>(before: Image<T>, value: T, f: File<T>)
    requires before.temp.None? && OfWrite(f, value)
    ensures HoldsOnly(before, before, value) && HoldsOnly(before.(temp := Some(f)), before, value)
    ensures HoldsOnly(before.(target := Some(f)), before, value)
    ensures HoldsOnly(before.(left := before.left + [f]), before, value)
  {
  }

  class Disk<T> {
    var target: Option<File<T>>
    var temp: Option<File<T>>
    var left: seq<File<T>>
    /** Every state the disk has been in: where a crash may strike. */
    var trace: seq<Image<T>>

    constructor (image: Image<T>)
      ensures Now() == image && trace == [image]
    {
      target, temp, left, trace := image.target, image.temp, image.left, [image];
    }

    function Now(): Image<T>
      reads this
    {
      Image(target, temp, left)
    }

    /** `os.open(..., O_EXCL)` of a name nobody has. */
    method Open()
      requires temp == None
      modifies this
      ensures Now() == old(Now()).(temp := Some(File(Empty, false))) && trace == old(trace) + [Now()]
    {
      temp := Some(File(Empty, false));
      trace := trace + [Now()];
    }

    /** Writing and flushing: some of the text is in the file, then all of it, none of it synced. */
    method Write(value: T)
      requires temp.Some?
      modifies this
      ensures Now() == old(Now()).(temp := Some(File(Whole(value), false)))
      ensures trace == old(trace) + [old(Now()).(temp := Some(File(Partial, false))), Now()]
    {
      temp := Some(File(Partial, false));
      trace := trace + [Now()];
      temp := Some(File(Whole(value), false));
      trace := trace + [Now()];
    }

    method Sync()
      requires temp.Some?
      modifies this
      ensures Now() == old(Now()).(temp := Some(old(temp).value.(synced := true))) && trace == old(trace) + [Now()]
    {
      temp := Some(temp.value.(synced := true));
      trace := trace + [Now()];
    }

    method Replace()
      requires temp.Some?
      modifies this
      ensures Now() == old(Now()).(target := old(temp), temp := None) && trace == old(trace) + [Now()]
    {
      target, temp := temp, None;
      trace := trace + [Now()];
    }

    /** `os.unlink` with its error suppressed: a file it could not remove stays behind. */
    method Unlink(fails: bool)
      requires temp.Some?
      modifies this
      ensures target == old(target) && temp == None && trace == old(trace) + [Now()]
      ensures left == old(left) + if fails then [old(temp).value] else []
    {
      if fails {
        left := left + [temp.value];
      }
      temp := None;
      trace := trace + [Now()];
    }

    /** Replace the target by `value`, failing as `fault` says if it says so. Whatever happens,
        every state passed through would leave the old target or the new one after a crash. A
        normal return leaves the new one and a failure the old; neither leaves a temporary file
        behind, unless one was made and could not be removed. */
    method WritePrivate(value: T, fault: Option<Fault>) returns (ok: bool)
      requires temp == None
      modifies this
      ensures ok == fault.None?
      ensures temp == None && target == if ok then Some(File(Whole(value), true)) else old(target)
      ensures ok || fault.value.at.OpenTemp? || !fault.value.unlinkFails ==> left == old(left)
      ensures !ok && !fault.value.at.OpenTemp? && fault.value.unlinkFails ==> exists f :: left == old(left) + [f]
      ensures old(trace) <= trace
      ensures forall i :: |old(trace)| <= i < |trace| ==>
        trace[i].target == old(target) || (ok && trace[i].target == Some(File(Whole(value), true)))
      ensures HoldsOnly(Now(), old(Now()), value)
      ensures forall i :: |old(trace)| <= i < |trace| ==> HoldsOnly(trace[i], old(Now()), value)
    {
      hide HoldsOnly;
      ghost var past, held := trace, target;
      WritesHoldOnly(Now(), value, File(Empty, false));
      WritesHoldOnly(Now(), value, File(Partial, false));
      WritesHoldOnly(Now(), value, File(Whole(value), false));
      WritesHoldOnly(Now(), value, File(Whole(value), true));
      if fault.Some? && fault.value.at.OpenTemp? {
        return false;
      }
      Open();
      if fault.Some? && fault.value.at.WriteTemp? {
        Unlink(fault.value.unlinkFails);
        return false;
      }
      Write(value);
      if fault.Some? && (fault.value.at.FlushTemp? || fault.value.at.SyncTemp?) {
        Unlink(fault.value.unlinkFails);
        return false;
      }
      Sync();
      assert forall i :: |past| <= i < |trace| ==> trace[i].target == held;
      if fault.Some? && fault.value.at.ReplaceTarget? {
        Unlink(fault.value.unlinkFails);
        return false;
      }
      Replace();
      return true;
    }
  }
}
