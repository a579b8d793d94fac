/** Octets, as in a Node `Buffer`: the uploaded file's content and the HMAC's inputs. */
module Bytes {
  newtype byte = x: int | 0 <= x < 256
}
