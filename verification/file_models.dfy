/** The records the service returns. Upload and creation timestamps are not
    part of the model. */
module FileModels {

  /** What a successful upload reports. */
  datatype FileUploadResponse = FileUploadResponse(
    fileId: string,
    originalFilename: string,
    storedFilename: string,
    fileSize: nat,
    message: string)

  /** What a lookup of a stored file reports. */
  datatype FileInfo = FileInfo(
    fileId: string,
    originalFilename: string,
    storedFilename: string,
    fileSize: nat,
    filePath: string)
}
