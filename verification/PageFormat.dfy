/** Pages, headers and log frames (engine/src/engine/page_format.cpp).

    Checksums are ideal. A page or a frame is a value that was written whole; a
    torn or zero-filled one has no value at all (see `Disk`). The chained frame
    checksum is a term that records everything it covers, so two frames carry the
    same checksum exactly when they cover the same history. */
module PageFormat {

  type PageNo = nat    // 0 for the page with the database header
  type FrameNo = nat   // log frames are counted from 1, so that 0 can stand for no frame
  type Byte = b: nat | b < 256
  type Bytes = seq<Byte>

  datatype Option<+T> = None | Some(value: T)

  datatype DbHeader = DbHeader(
    pageCount: nat,
    freeHead: PageNo,
    freeCount: nat,
    changeCounter: nat,
    dbId: nat,
    commitTime: int)

  datatype Page = HeaderPage(header: DbHeader) | BodyPage(bytes: Bytes)

  datatype WalHeader = WalHeader(salt: nat, dbId: nat, base: nat)

  /** The running checksum: the log header's seeds it, every frame extends it. */
  datatype Sum =
    | Seed(header: WalHeader)
    | Link(prev: Sum, page: PageNo, dbSize: nat, salt: nat, image: Page)

  datatype Frame = Frame(page: PageNo, dbSize: nat, salt: nat, image: Page, sum: Sum)
  {
    /** WalFrameHeader::decode: the stored checksum covers `prev` and this frame. */
    predicate Follows(prev: Sum)
    {
      sum == Link(prev, page, dbSize, salt, image)
    }
  }

  /** WalFrameHeader::encode. */
  function MakeFrame(page: PageNo, dbSize: nat, salt: nat, image: Page, prev: Sum): (f: Frame)
    ensures f.Follows(prev)
  {
    Frame(page, dbSize, salt, image, Link(prev, page, dbSize, salt, image))
  }

  /** What one file position holds when it was written whole. */
  datatype Cell = PageCell(page: Page) | HeaderCell(header: WalHeader) | FrameCell(frame: Frame)
}
