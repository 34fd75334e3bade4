/** The directory tree of an evidence run, its size, and the walk that measures it. */
module RunTree {
  import opened Wrappers
  import opened CapacityLedger

  type U64 = n: int | 0 <= n <= U64_MAX

  /** A symbolic link carries what it points at; `Other` is a socket, pipe or device. */
  datatype Node = File(len: U64) | Dir(entries: seq<Entry>) | Symlink(target: Option<Node>) | Other

  datatype Entry = Entry(name: string, node: Node)

  // ---------------------------------------------------------------- following links

  /** What the path names once links are followed. */
  function Follow(n: Node): Option<Node> {
    match n
    case Symlink(None) => None
    case Symlink(Some(t)) => Follow(t)
    case _ => Some(n)
  }

  /** `Path::exists`. */
  predicate Exists(n: Node) { Follow(n).Some? }

  /** `Path::is_dir`. */
  predicate IsDir(n: Node) { Follow(n).Some? && Follow(n).value.Dir? }

  /** The entries `read_dir` lists through links. */
  function EntriesOf(n: Node): seq<Entry>
    requires IsDir(n)
  {
    Follow(n).value.entries
  }

  /** The node with the directory it leads to listing `es` instead. */
  function WithEntries(n: Node, es: seq<Entry>): (r: Node)
    requires IsDir(n)
    ensures IsDir(r) && EntriesOf(r) == es && (r.Symlink? <==> n.Symlink?)
  {
    match n
    case Symlink(Some(t)) => Symlink(Some(WithEntries(t, es)))
    case _ => Dir(es)
  }

  /** Position of the first entry of this name, or the length. */
  function FindEntry(es: seq<Entry>, name: string): (k: nat)
    ensures k <= |es|
    ensures k < |es| ==> es[k].name == name
    ensures forall i :: 0 <= i < k ==> es[i].name != name
  {
    if es == [] || es[0].name == name then 0 else 1 + FindEntry(es[1..], name)
  }

  function Without(es: seq<Entry>, k: nat): seq<Entry>
    requires k < |es|
  {
    es[..k] + es[k + 1..]
  }

  // ---------------------------------------------------------------- size

  /** Bytes of the regular files at and below the node; links are not followed. */
  function Bytes(n: Node): nat {
    match n
    case File(len) => len
    case Dir(es) => EntryBytes(es)
    case _ => 0
  }

  function EntryBytes(es: seq<Entry>): nat {
    if es == [] then 0 else Bytes(es[0].node) + EntryBytes(es[1..])
  }

  predicate HasLink(n: Node) {
    match n
    case Symlink(_) => true
    case Dir(es) => EntriesHaveLink(es)
    case _ => false
  }

  predicate EntriesHaveLink(es: seq<Entry>) {
    es != [] && (HasLink(es[0].node) || EntriesHaveLink(es[1..]))
  }

  lemma {:induction false} EntryBytesAppend(a: seq<Entry>, b: seq<Entry>)
    ensures EntryBytes(a + b) == EntryBytes(a) + EntryBytes(b)
  {
    if a == [] {
      assert a + b == b;
    } else {
      assert (a + b)[1..] == a[1..] + b;
      EntryBytesAppend(a[1..], b);
    }
  }

  /** Dropping an entry drops exactly its bytes. */
  lemma {:induction false} WithoutBytes(es: seq<Entry>, k: nat)
    requires k < |es|
    ensures EntryBytes(es) == EntryBytes(Without(es, k)) + Bytes(es[k].node)
  {
    assert es == es[..k] + ([es[k]] + es[k + 1..]);
    EntryBytesAppend(es[..k], [es[k]] + es[k + 1..]);
    EntryBytesAppend(es[..k], es[k + 1..]);
  }

  /** The recursive walk of `measure_run_bytes`, carrying the running total. */
  method Walk(n: Node, total: U64) returns (r: Result<U64, Error>)
    ensures r == if HasLink(n) then Err(Rejected) else Ok(SaturatingAdd(total, Bytes(n)))
    decreases n
  {
    match n {
      case Symlink(_) => return Err(Rejected);
      case File(len) => return Ok(SaturatingAdd(total, len));
      case Other => return Ok(total);
      case Dir(es) =>
        var sum := total;
        for i := 0 to |es|
          invariant 0 <= i <= |es|
          invariant EntriesHaveLink(es) <==> EntriesHaveLink(es[i..])
          invariant SaturatingAdd(total, EntryBytes(es)) == SaturatingAdd(sum, EntryBytes(es[i..]))
        {
          assert es[i..][1..] == es[i + 1..];
          var below := Walk(es[i].node, sum);
          if below.Err? { return Err(Rejected); }
          sum := below.value;
        }
        return Ok(sum);
    }
  }

  /** What `measure_run_bytes` answers. */
  function Measured(n: Node): Result<U64, Error> {
    if HasLink(n) then Err(Rejected) else Ok(SaturatingAdd(0, Bytes(n)))
  }

  method MeasureRunBytes(n: Node) returns (r: Result<U64, Error>)
    ensures r == Measured(n)
  {
    r := Walk(n, 0);
  }
}
