/** The image list of the viewer's top-level component: the updater that
    `handleMessageReceived` passes to `setImages` (prepend unless an image with
    the same id is already listed), the notification it raises, and
    `clearImages`. */
module Gallery {
  import opened Strings
  import opened Dispatcher

  /** `images.some(img => img.id === id)`. */
  predicate HasId(images: seq<ImageRecord>, id: string)
    ensures HasId(images, id) <==> exists r :: r in images && r.id == id
  {
    exists i :: 0 <= i < |images| && images[i].id == id
  }

  predicate UniqueIds(images: seq<ImageRecord>) {
    forall i, j :: 0 <= i < j < |images| ==> images[i].id != images[j].id
  }

  /** The `setImages` updater: a listed id leaves the list as it is; a new
      one goes in front and every earlier image keeps its place behind it. */
  function AddImage(prev: seq<ImageRecord>, imageData: ImageRecord): (r: seq<ImageRecord>)
    ensures HasId(prev, imageData.id) ==> r == prev
    ensures !HasId(prev, imageData.id) ==>
      |r| == |prev| + 1 && r[0] == imageData && r[1..] == prev
    ensures HasId(r, imageData.id)
    ensures forall i :: 0 <= i < |prev| ==> prev[i] in r
  {
    if HasId(prev, imageData.id) then prev else [imageData] + prev
  }

  /** The updater keeps the ids of the list distinct. */
  lemma AddImageKeepsIdsUnique(prev: seq<ImageRecord>, imageData: ImageRecord)
    requires UniqueIds(prev)
    ensures UniqueIds(AddImage(prev, imageData))
  {
    var r := AddImage(prev, imageData);
    if !HasId(prev, imageData.id) {
      forall i, j | 0 <= i < j < |r| ensures r[i].id != r[j].id {
        if i == 0 {
          assert r[j] == prev[j - 1];
        } else {
          assert r[i] == prev[i - 1] && r[j] == prev[j - 1];
        }
      }
    }
  }

  /** Delivering the same record twice lists it once. */
  lemma AddImageIdempotent(prev: seq<ImageRecord>, imageData: ImageRecord)
    ensures AddImage(AddImage(prev, imageData), imageData) == AddImage(prev, imageData)
  {
  }

  const ClearedNotice: string := "All images cleared"

  /** The component's `images` and `notification` state. */
  class App {
    var images: seq<ImageRecord>
    var notification: Option<string>

    ghost predicate Valid()
      reads this
    {
      UniqueIds(images)
    }

    constructor ()
      ensures Valid() && images == [] && notification == None
    {
      images, notification := [], None;
    }

    /** `handleMessageReceived`: the notification is raised only when the
        image is actually added. */
    method HandleMessageReceived(imageData: ImageRecord)
      requires Valid()
      modifies this
      ensures Valid()
      ensures images == AddImage(old(images), imageData)
      ensures notification ==
        if HasId(old(images), imageData.id) then old(notification)
        else Some("Received new image: " + imageData.id)
    {
      AddImageKeepsIdsUnique(images, imageData);
      if !HasId(images, imageData.id) {
        notification := Some("Received new image: " + imageData.id);
      }
      images := AddImage(images, imageData);
    }

    /** `clearImages`. */
    method ClearImages()
      modifies this
      ensures Valid() && images == [] && notification == Some(ClearedNotice)
    {
      images := [];
      notification := Some(ClearedNotice);
    }

    /** `handleCloseNotification`. */
    method CloseNotification()
      requires Valid()
      modifies this
      ensures Valid() && images == old(images) && notification == None
    {
      notification := None;
    }
  }
}
