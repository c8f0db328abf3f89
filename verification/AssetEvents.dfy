/** The durable facts of the asset aggregate, as the projection sees them. */
module AssetEvents {

  type Id = string

  /** An asset-created fact. `details` stands for the fields the lifecycle never inspects. */
  datatype Creation = Creation(assetId: Id, roomId: Id, parentId: Id, details: string)

  /** One transcoded rendition named by a success fact. */
  datatype Variant = Variant(quality: string, assetId: Id)

  datatype Video = Video(durationMs: int, width: int, height: int, thumbnailId: Id, variants: seq<Variant>)

  datatype Event =
    | AssetCreated(creation: Creation)
    | ProcessingStarted(assetId: Id, messageEventId: Id)
    | ProcessingSucceeded(assetId: Id, messageEventId: Id, video: Video)
    | ProcessingFailed(assetId: Id, messageEventId: Id, failureCode: int)
    | AssetDeleted(assetId: Id)
    | Other(tag: string)
  {
    /** The asset a lifecycle event is about; empty for every other event. */
    function Asset(): Id {
      match this
      case AssetCreated(c) => c.assetId
      case ProcessingStarted(a, _) => a
      case ProcessingSucceeded(a, _, _) => a
      case ProcessingFailed(a, _, _) => a
      case AssetDeleted(a) => a
      case Other(_) => ""
    }

    predicate IsLifecycle() {
      !Other?
    }

    predicate IsTerminal() {
      ProcessingSucceeded? || ProcessingFailed?
    }

    predicate IsProcessing() {
      ProcessingStarted? || IsTerminal()
    }
  }

  /** Subjects: the asset aggregate `evt.asset.{id}.*`, or a room lane of beta histories. */
  datatype Lane = Aggregate | LegacyRoom

  /** One stream message. Its stream sequence is its index in the log plus one. */
  datatype Entry = Entry(eventId: Id, actorId: Id, lane: Lane, event: Event)

  type Log = seq<Entry>
}
