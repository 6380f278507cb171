/** The job queue of af_xdp_user.c: a singly linked list behind a mutex. */
module JobQueue {

  /** What a queue is to its callers. */
  datatype Queue<T> = Queue(jobs: seq<T>, cap: nat, down: bool) {
    predicate Accepts() {
      !down && (cap == 0 || |jobs| < cap)
    }

    function Pushed(job: T): Queue<T> {
      Queue(jobs + [job], cap, down)
    }
  }

  class Cell<T> {
    const job: T
    var next: Cell?<T>

    constructor (job: T)
      ensures this.job == job && next == null
    {
      this.job := job;
      next := null;
    }
  }

  /** The jobs of a chain of cells. */
  ghost function JobsOf<T>(cells: seq<Cell<T>>): seq<T> {
    seq(|cells|, i requires 0 <= i < |cells| => cells[i].job)
  }

  /** Cells in order, each linked to the next, the last to nothing. */
  ghost predicate Linked<T>(cells: seq<Cell<T>>)
    reads cells
  {
    && (forall i, j :: 0 <= i < j < |cells| ==> cells[i] != cells[j])
    && (forall i :: 0 <= i < |cells| - 1 ==> cells[i].next == cells[i + 1])
    && (cells != [] ==> cells[|cells| - 1].next == null)
  }

  class LinkedQueue<T> {
    var head: Cell?<T>
    var tail: Cell?<T>
    var count: nat
    const cap: nat
    var down: bool
    ghost var cells: seq<Cell<T>>

    ghost predicate Valid()
      reads this, cells
    {
      && Linked(cells) && count == |cells|
      && head == (if cells == [] then null else cells[0])
      && tail == (if cells == [] then null else cells[|cells| - 1])
    }

    ghost function Contents(): Queue<T>
      reads this
    {
      Queue(JobsOf(cells), cap, down)
    }

    /** queue_init. */
    constructor (cap: nat)
      ensures Valid() && cells == [] && Contents() == Queue([], cap, false)
    {
      head, tail, count, down := null, null, 0, false;
      this.cap := cap;
      cells := [];
    }

    /** queue_push: refused after shutdown and at capacity, else appended. */
    method Push(cell: Cell<T>) returns (ok: bool)
      requires Valid() && cell !in cells
      modifies this`head, this`tail, this`count, this`cells, cells`next, cell`next
      ensures Valid() && ok == old(Contents()).Accepts()
      ensures cells == if ok then old(cells) + [cell] else old(cells)
      ensures Contents() == if ok then old(Contents()).Pushed(cell.job) else old(Contents())
    {
      ghost var before := cells;
      if down || (cap != 0 && count >= cap) { return false; }
      cell.next := null;
      if tail != null {
        tail.next := cell;
      } else {
        head := cell;
      }
      tail := cell;
      count := count + 1;
      cells := cells + [cell];
      assert JobsOf(cells) == JobsOf(before) + [cell.job];
      ok := true;
    }

    /** queue_pop_wait once it has stopped waiting: the oldest job, or nothing exactly when
        the queue is empty and shut down. */
    method Pop() returns (cell: Cell?<T>)
      requires Valid() && (head != null || down)
      modifies this`head, this`tail, this`count, this`cells, cells`next
      ensures Valid() && (cell == null <==> old(Contents()).jobs == [])
      ensures if cell == null then Contents() == old(Contents())
              else && old(Contents()).jobs == [cell.job] + Contents().jobs && cell.next == null
                   && Contents() == old(Contents()).(jobs := Contents().jobs)
    {
      if head == null { return null; }
      ghost var before := cells;
      cell := head;
      head := cell.next;
      if head == null { tail := null; }
      count := count - 1;
      cells := cells[1..];
      cell.next := null;
      assert JobsOf(before) == [cell.job] + JobsOf(cells);
    }

    /** queue_drain: the whole chain, detached at once and in order. */
    method Drain() returns (list: Cell?<T>, ghost chain: seq<Cell<T>>)
      requires Valid()
      modifies this`head, this`tail, this`count, this`cells
      ensures Valid() && Contents() == old(Contents()).(jobs := [])
      ensures chain == old(cells) && Linked(chain) && JobsOf(chain) == old(Contents()).jobs
      ensures list == if chain == [] then null else chain[0]
    {
      list, chain := head, cells;
      head, tail, count := null, null, 0;
      cells := [];
    }

    /** queue_shutdown. */
    method Shutdown()
      requires Valid()
      modifies this`down
      ensures Valid() && Contents() == old(Contents()).(down := true)
    {
      down := true;
    }
  }
}
