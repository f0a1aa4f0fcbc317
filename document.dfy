/** What the processor reads from a PDF, in place of the PDF library's
    objects: per page the extracted text (absent when reading it raised),
    the embedded images, and the number of vector drawing primitives. */
module Document {
  import opened Options

  /** An embedded image as its pixmap reports it, or `Unreadable` when
      building the pixmap raised. */
  datatype EmbeddedImage = Image(width: int, height: int) | Unreadable

  datatype Page = Page(text: Option<string>, images: seq<EmbeddedImage>, drawings: nat)

  /** What opening the file gives: it does not exist, the library cannot
      open it, or it opens as a sequence of pages. */
  datatype Source = Missing | Unopenable | Opened(pages: seq<Page>)

  /** Pages are indexed from 0 internally and shown from 1: the one place
      where the two meet. */
  function DisplayPage(index: nat): nat {
    index + 1
  }
}
