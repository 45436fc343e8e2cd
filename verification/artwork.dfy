/**
 The artwork record shown by the art-space screen, and the fixed list of
 artworks the screen is built with.
 */
module Artwork {

  /** One artwork. `imageResId` is an opaque resource handle: the model never
      interprets it, it only carries it to the renderer. */
  datatype Artwork = Artwork(imageResId: int, title: string, artist: string, year: int)

  /* Opaque stand-ins for the three drawable resource identifiers. */
  const BridgeImage: int := 1
  const MountainImage: int := 2
  const ForestImage: int := 3

  /** The literal gallery the screen is created with, in display order. */
  function ArtSpaceArtworks(): seq<Artwork>
  {
    [
      Artwork(BridgeImage, "Sailing Under the Bridge", "Kat Kuan", 2017),
      Artwork(MountainImage, "Mountains of Madness", "Paul Colson", 2019),
      Artwork(ForestImage, "Whispers in the Forest", "Anna Kwon", 2021)
    ]
  }
}
