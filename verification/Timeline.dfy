/** The entries of an issue's timeline. */
module Timeline {

  import opened Wrappers

  datatype Kind = Activity | Comment

  datatype Entry = Entry(
    kind: Kind, id: string, parentId: Option<string>, action: Option<string>, actorType: string, actorId: string,
    createdAt: int, coalescedCount: Option<nat>, content: string)
}
