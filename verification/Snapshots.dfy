/** The target behind one rendered ref, shared by the ref registry and the snapshot diff. */
module Snapshots {

  datatype SnapshotRef = SnapshotRef(
    nodeId: string, backendNodeId: int, role: string, name: string, value: string, state: string,
    visible: bool, refKey: string, domPath: string, siblingOrdinal: int)

  /** Refs by name, as a snapshot lists them. */
  type Refs = map<string, SnapshotRef>
}
