/** Identifiers and collector types (pkg/domain). */
module Domain {

  datatype SupportArchiveID = SupportArchiveID(namespace: string, name: string)

  datatype CollectorType = Logs | VolumeInfo | NodeInfo | Secrets | SystemState | Events

  const ALL_COLLECTORS: set<CollectorType> := {Logs, VolumeInfo, NodeInfo, Secrets, SystemState, Events}

  /** How writing a `.done` marker ends; when it fails the file may exist all the same. */
  datatype Marking = Marked | MarkingFails(present: bool)

  function MarkedBy(done: set<SupportArchiveID>, id: SupportArchiveID, marking: Marking): (marked: set<SupportArchiveID>)
    ensures forall other :: other != id ==> (other in marked <==> other in done)
    ensures id !in marked <==> id !in done && marking == MarkingFails(false)
  {
    if marking == Marked || marking.present then done + {id} else done
  }

  /** A slash-separated path as the list of its elements. */
  type Path = seq<string>

  /** The collector's directory below the archive's work directory, and its directory in the zip. */
  function Dir(col: CollectorType): Path {
    match col
    case Logs => ["Logs"]
    case VolumeInfo => ["VolumeInfo"]
    case NodeInfo => ["NodeInfo"]
    case Secrets => ["Resources", "Secrets"]
    case SystemState => ["Resources", "SystemState"]
    case Events => ["Events"]
  }

  /** No collector directory lies inside another one. */
  lemma DirsApart(a: CollectorType, b: CollectorType)
    ensures Dir(a) <= Dir(b) ==> a == b
  {
    assert Dir(a)[0] in ["Logs", "VolumeInfo", "NodeInfo", "Resources", "Events"];
    assert "Logs"[0] == 'L' && "VolumeInfo"[0] == 'V' && "NodeInfo"[0] == 'N' && "Resources"[0] == 'R' && "Events"[0] == 'E';
    assert "Secrets"[1] == 'e' && "SystemState"[1] == 'y';
    if Dir(a) <= Dir(b) {
      assert Dir(a)[0] == Dir(b)[0];
      if |Dir(a)| == 2 {
        assert Dir(a)[1] == Dir(b)[1];
      }
    }
  }

  /** The name of a collector's file in the zip. */
  function EntryName(col: CollectorType, rel: Path): Path {
    Dir(col) + rel
  }

  /** Different files get different zip entries, also across collectors. */
  lemma EntryNameInjective(a: CollectorType, rel: Path, b: CollectorType, rel': Path)
    requires EntryName(a, rel) == EntryName(b, rel')
    ensures a == b && rel == rel'
  {
    var name := EntryName(a, rel);
    assert Dir(a) == name[..|Dir(a)|] && Dir(b) == name[..|Dir(b)|];
    if |Dir(a)| <= |Dir(b)| {
      assert Dir(a) == Dir(b)[..|Dir(a)|];
      DirsApart(a, b);
    } else {
      assert Dir(b) == Dir(a)[..|Dir(b)|];
      DirsApart(b, a);
    }
    assert rel == name[|Dir(a)|..] && rel' == name[|Dir(b)|..];
  }
}
