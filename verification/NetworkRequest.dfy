/** The network process: it keeps the start of a response body and sniffs it when the response ends. */
module NetworkRequests {
  import opened Basics
  import opened MimeTables
  import opened MimeSpec
  import opened MimePolicy
  import opened MimeSniffer

  class NetworkRequest {
    var mimeData: seq<byte>
    ghost var body: seq<byte>  // everything forwarded so far

    ghost predicate Valid()
      reads this
    {
      mimeData <= body && (|mimeData| < MAX_BYTES_TO_SNIFF ==> mimeData == body)
    }

    constructor ()
      ensures Valid() && body == []
    {
      mimeData, body := [], [];
    }

    method ForwardData(data: seq<byte>)
      requires Valid()
      modifies this
      ensures Valid() && body == old(body) + data
      ensures mimeData == if |old(mimeData)| < MAX_BYTES_TO_SNIFF then old(mimeData) + data else old(mimeData)
    {
      if data != [] {
        if |mimeData| < MAX_BYTES_TO_SNIFF {
          mimeData := mimeData + data;
        }
        body := body + data;
      } else {
        assert mimeData + data == mimeData && body + data == body;
      }
    }

    /** The type reported at the end is the one that the whole body would have got. */
    method Finish(headerMimeType: string) returns (mimeType: string)
      requires Valid()
      ensures mimeType == Sniff(headerMimeType, body).mimeType
    {
      var content := new byte[|mimeData|](i requires 0 <= i < |mimeData| reads this => mimeData[i]);
      assert content[..|mimeData|] == mimeData;
      var result := new MimeType("");
      var enough := SniffMimeType(content, |mimeData|, headerMimeType, result);
      WindowBound(headerMimeType, mimeData, body);
      mimeType := result.value;
    }
  }
}
