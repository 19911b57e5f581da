/** Option and Result types, and the failures the handlers raise.

    Every `ConversionError` the Python handlers raise becomes one constructor of
    `Error`, named after its message, so that contracts can say which failure an
    input leads to. `StoreFailure` stands for a botocore `ClientError` that the
    source lets escape unwrapped, and `NotUtf8` / `FormatNotString` for the two
    non-`ConversionError` exceptions the core can raise. */
module Wrappers {

  /** An octet, the unit of object bodies and of UTF-8 text. */
  newtype byte = b: int | 0 <= b < 0x100

  datatype Option<T> = None | Some(value: T)

  datatype Error =
    // src/common.py
    | DefaultBucketNotConfigured     // get_default_bucket
    | FilenameNotXlsx                // sanitize_filename
    | SourceUnreadable               // load_workbook_bytes, get_object failed
    | WorkbookEmpty                  // load_workbook_bytes / write_temp_workbook
    | PayloadNotBase64               // load_workbook_bytes, b64decode failed
    | InvalidS3Uri                   // parse_s3_uri
    | PruneListFailed                // delete_prefix_contents, listing failed
    | DeleteFailed                   // _submit_delete_batch
    | ObjectUnreadable               // read_binary_object
    | StoreFailure                   // a ClientError that is not wrapped
    // src/submit_handler.py
    | FilenameMissing                // "Payload must include a valid 'filename'"
    | UnsupportedFormat
    | DataMissing
    | WorkbookStoreFailed
    // src/convert_handler.py
    | RecordsMissing
    | RenderFailed
    | PdfWriteFailed
    | MarkerWriteFailed
    // src/get_handler.py
    | RequestBodyInvalid             // extract_api_payload: not JSON, or not an object
    | ResultIdMissing
    | ResultIdInvalid
    | MarkerEmpty                    // marker present, no PDF name recorded
    | RecordedPdfMissing
    | NotUtf8                        // UnicodeDecodeError reading the marker
    // src/app.py
    | FormatNotString                // `None.lower()` on an explicit null format
    | TargetWithoutDefaultBucket
    | NoTargetNoDefaultBucket
    | PdfStoreFailed

  datatype Result<T> = Ok(value: T) | Err(error: Error)
}
